/** Fixed-width unsigned big integers (base_uint<BITS> in src/arith_uint256.h and src/arith_uint256.cpp). */
module ArithUint256 {
  import opened Numbers
  import opened Limbs
  import opened LimbShifts

  /** uint64_t arithmetic: the limb loops never leave this range. */
  type uint64 = x: int | 0 <= x < 0x1_0000_0000_0000_0000

  lemma CarryFits(a: uint32, b: uint32, c: uint32, d: uint32)
    ensures c + d + a * b < 0x1_0000_0000_0000_0000
    ensures (c + d + a * b) / B < B
  {
    MulGrows(a, B - 1, b);
  }

  class BaseUint {
    const WIDTH: nat
    const pn: array<uint32>

    ghost predicate Valid() {
      pn.Length == WIDTH && WIDTH >= 2
    }

    ghost function Value(): nat
      reads pn
    {
      Val(pn[..])
    }

    ghost function Modulus(): nat {
      Pow(B, WIDTH)
    }

    constructor (width: nat, b: uint64)
      requires width >= 2
      ensures Valid() && fresh(pn) && WIDTH == width && Value() == b
    {
      WIDTH := width;
      pn := new uint32[width](i => 0);
      new;
      ValZero(pn[..]);
      ghost var s := pn[..];
      pn[0] := b % B;
      ghost var t := pn[..];
      pn[1] := b / B;
      ValUpdate(s, 0, b % B);
      ValUpdate(t, 1, b / B);
    }

    constructor Copy(b: BaseUint)
      requires b.Valid()
      ensures Valid() && fresh(pn) && WIDTH == b.WIDTH && pn[..] == b.pn[..]
    {
      WIDTH := b.WIDTH;
      pn := new uint32[b.WIDTH];
      new;
      for i := 0 to WIDTH
        invariant pn[..i] == b.pn[..i]
      {
        pn[i] := b.pn[i];
      }
    }

    method SetZero()
      requires Valid()
      modifies pn
      ensures Value() == 0 && forall i :: 0 <= i < WIDTH ==> pn[i] == 0
    {
      for i := 0 to WIDTH
        invariant forall j :: 0 <= j < i ==> pn[j] == 0
      {
        pn[i] := 0;
      }
      ValZero(pn[..]);
    }

    // ------------------------------------------------------ addition and subtraction

    method AddAssign(b: BaseUint)
      requires Valid() && b.Valid() && b.WIDTH == WIDTH && (b == this || b.pn != pn)
      modifies pn
      ensures Value() == (old(Value()) + old(b.Value())) % Modulus()
    {
      ghost var x, y := pn[..], b.pn[..];
      var carry: uint64 := 0;
      for i := 0 to WIDTH
        invariant carry <= 1 && forall k :: i <= k < WIDTH ==> pn[k] == x[k] && b.pn[k] == y[k]
        invariant Val(pn[..i]) + carry * Pow(B, i) == Val(x[..i]) + Val(y[..i])
      {
        var n: uint64 := carry + pn[i] + b.pn[i];
        ghost var was := pn[..];
        pn[i] := n % B;
        AddStep(x, y, was, pn[..], i, carry, n / B);
        carry := n / B;
      }
      assert pn[..WIDTH] == pn[..] && x[..WIDTH] == x && y[..WIDTH] == y;
      ValBound(pn[..]);
      ModFrom(Value(), carry, Modulus(), Val(x) + Val(y));
    }

    /** Two's complement: all limbs inverted, plus one. */
    method Negated() returns (r: BaseUint)
      requires Valid()
      ensures fresh(r) && fresh(r.pn) && r.Valid() && r.WIDTH == WIDTH && r.Value() == (0 - Value()) % Modulus()
    {
      r := new BaseUint(WIDTH, 0);
      for i := 0 to WIDTH
        invariant Val(r.pn[..i]) + Val(pn[..i]) == Pow(B, i) - 1
      {
        ghost var was := r.pn[..];
        r.pn[i] := B - 1 - pn[i];
        assert r.pn[..i] == was[..i];
        NegStep(pn[..], r.pn[..], i);
      }
      assert r.pn[..WIDTH] == r.pn[..] && pn[..WIDTH] == pn[..];
      ghost var x := r.Value();
      r.Increment();
      ValBound(pn[..]);
      NegMod(x, Value(), Modulus(), r.Value());
    }

    method SubAssign(b: BaseUint)
      requires Valid() && b.Valid() && b.WIDTH == WIDTH
      modifies pn
      ensures Value() == (old(Value()) - old(b.Value())) % Modulus()
    {
      var m := b.Negated();
      ghost var x, y := Value(), b.Value();
      AddAssign(m);
      SubMod(x, y, Modulus(), m.Value());
    }

    method Increment()
      requires Valid()
      modifies pn
      ensures Value() == (old(Value()) + 1) % Modulus()
    {
      hide Val, Pow;
      ghost var x := Value();
      var i := 0;
      StepAt(pn[..], i, 1);
      pn[i] := (pn[i] + 1) % B;
      while pn[i] == 0 && i < WIDTH - 1
        invariant 0 <= i < WIDTH
        invariant Value() + (if pn[i] == 0 then Pow(B, i + 1) else 0) == x + 1
      {
        i := i + 1;
        StepAt(pn[..], i, 1);
        pn[i] := (pn[i] + 1) % B;
      }
      ValBound(pn[..]);
      ModFrom(Value(), if pn[i] == 0 then 1 else 0, Modulus(), x + 1);
    }

    method Decrement()
      requires Valid()
      modifies pn
      ensures Value() == (old(Value()) - 1) % Modulus()
    {
      hide Val, Pow;
      ghost var x: int := Value();
      var i := 0;
      StepAt(pn[..], i, -1);
      pn[i] := (pn[i] - 1) % B;
      while pn[i] == B - 1 && i < WIDTH - 1
        invariant 0 <= i < WIDTH
        invariant Value() - (if pn[i] == B - 1 then Pow(B, i + 1) else 0) == x - 1
      {
        i := i + 1;
        StepAt(pn[..], i, -1);
        pn[i] := (pn[i] - 1) % B;
      }
      ValBound(pn[..]);
      ModFrom(Value(), if pn[i] == B - 1 then -1 else 0, Modulus(), x - 1);
    }

    // ---------------------------------------------------------------- multiplication

    method MulAssign32(b32: uint32)
      requires Valid()
      modifies pn
      ensures Value() == old(Value()) * b32 % Modulus()
    {
      ghost var x := pn[..];
      var carry: uint64 := 0;
      for i := 0 to WIDTH
        invariant carry < B && forall k :: i <= k < WIDTH ==> pn[k] == x[k]
        invariant Val(pn[..i]) + carry * Pow(B, i) == Val(x[..i]) * b32
      {
        CarryFits(b32, pn[i], carry, 0);
        var n: uint64 := carry + b32 * pn[i];
        ghost var was := pn[..];
        pn[i] := n % B;
        Mul32Step(x, was, pn[..], i, b32, carry, n / B);
        carry := n / B;
      }
      assert pn[..WIDTH] == pn[..] && x[..WIDTH] == x;
      ValBound(pn[..]);
      ModFrom(Value(), carry, Modulus(), Val(x) * b32);
    }

    /** The product, unless the operand is the number itself: it has then been cleared before it is read. */
    method MulAssign(b: BaseUint)
      requires Valid() && b.Valid() && b.WIDTH == WIDTH && (b == this || b.pn != pn)
      modifies pn
      ensures b != this ==> Value() == old(Value()) * old(b.Value()) % Modulus()
      ensures b == this ==> Value() == 0
    {
      hide Val, Pow, RowAdded, RowsAdded;
      var a := new BaseUint.Copy(this);
      ghost var x, y := pn[..], b.pn[..];
      SetZero();
      NoRows(x, y);
      for j := 0 to WIDTH
        invariant a.pn[..] == x && (b != this ==> b.pn[..] == y)
        invariant if b == this then Value() == 0 else RowsAdded(x, y, j, Value())
      {
        ghost var before := Value();
        assert a.pn[j] == x[j];
        var carry := MulRow(a.pn[j], j, b);
        if b != this {
          RowDone(x, y, j, before, Value(), carry);
        }
      }
      if b != this {
        ValBound(pn[..]);
        AllRows(x, y, Value());
      }
    }

    /** Adds `x * b`, shifted by `j` limbs. */
    method MulRow(x: uint32, j: nat, b: BaseUint) returns (carry: uint64)
      requires Valid() && b.Valid() && b.WIDTH == WIDTH && j < WIDTH && (b == this || b.pn != pn)
      requires b == this ==> Value() == 0
      modifies pn
      ensures if b == this then Value() == 0 else RowAdded(b.pn[..], WIDTH - j, j, x, old(Value()), Value(), carry)
    {
      hide Val, Pow, RowAdded;
      ghost var before := Value();
      ValZero(pn[..]);
      RowStart(b.pn[..], j, x, before);
      carry := 0;
      var i := 0;
      while i + j < WIDTH
        invariant i + j <= WIDTH && carry < B
        invariant if b == this then carry == 0 && forall m :: 0 <= m < WIDTH ==> pn[m] == 0
                  else RowAdded(b.pn[..], i, j, x, before, Value(), carry)
      {
        CarryFits(x, b.pn[i], carry, pn[i + j]);
        var n: uint64 := carry + pn[i + j] + x * b.pn[i];
        if b != this {
          RowStep(pn[..], b.pn[..], i, j, x, carry, before, n);
        }
        pn[i + j] := n % B;
        carry := n / B;
        i := i + 1;
      }
      ValZero(pn[..]);
    }

    // ------------------------------------------------------------------------ shifts

    method ShiftLeft(count: nat)
      requires Valid()
      modifies pn
      ensures Value() == old(Value()) * Pow(2, count) % Modulus()
    {
      hide Val, Pow, BitOr, ShiftUp;
      var a := pn[..];
      SetZero();
      var k, shift := count / 32, count % 32;
      for i := 0 to WIDTH
        invariant forall m :: 0 <= m < WIDTH ==> pn[m] == LeftLimb(a, k, shift, i, m)
      {
        LeftStores(a, k, shift, i);
        if i + k + 1 < WIDTH && shift != 0 {
          pn[i + k + 1] := BitOr(pn[i + k + 1], a[i] / Pow(2, 32 - shift));
        }
        if i + k < WIDTH {
          pn[i + k] := BitOr(pn[i + k], a[i] * Pow(2, shift) % B);
        }
      }
      ZeroFits(shift);
      ShiftedLeftValue(a, k, shift, pn[..]);
    }

    method ShiftRight(count: nat)
      requires Valid()
      modifies pn
      ensures Value() == old(Value()) / Pow(2, count)
    {
      hide Val, Pow, BitOr, ShiftDown;
      var a := pn[..];
      SetZero();
      var k, shift := count / 32, count % 32;
      for i := 0 to WIDTH
        invariant forall m :: 0 <= m < WIDTH ==> pn[m] == RightLimb(a, k, shift, i, m)
      {
        RightStores(a, k, shift, i);
        if i - k - 1 >= 0 && shift != 0 {
          pn[i - k - 1] := BitOr(pn[i - k - 1], a[i] * Pow(2, 32 - shift) % B);
        }
        if i - k >= 0 {
          pn[i - k] := BitOr(pn[i - k], a[i] / Pow(2, shift));
        }
      }
      RightLast(a, k, shift);
      ShiftedRightValue(a, k, shift, pn[..]);
    }

    // ------------------------------------------------------------ comparison and size

    method CompareTo(b: BaseUint) returns (r: int)
      requires Valid() && b.Valid() && b.WIDTH == WIDTH
      ensures r == if Value() < b.Value() then -1 else if Value() > b.Value() then 1 else 0
    {
      var i := WIDTH - 1;
      while i >= 0
        invariant -1 <= i < WIDTH && pn[i + 1..] == b.pn[i + 1..]
      {
        assert pn[i..] == [pn[i]] + pn[i + 1..] && b.pn[i..] == [b.pn[i]] + b.pn[i + 1..];
        if pn[i] < b.pn[i] {
          ValLess(pn[..], b.pn[..], i);
          return -1;
        }
        if pn[i] > b.pn[i] {
          ValLess(b.pn[..], pn[..], i);
          return 1;
        }
        i := i - 1;
      }
      assert pn[..] == b.pn[..];
      return 0;
    }

    /** The position of the highest set bit plus one, or zero. */
    method Bits() returns (r: nat)
      requires Valid()
      ensures Value() == 0 <==> r == 0
      ensures Value() < Pow(2, r) && (r > 0 ==> Pow(2, r - 1) <= Value())
      ensures r <= 32 * WIDTH
    {
      hide Val, Pow;
      var pos := WIDTH - 1;
      while pos >= 0
        invariant -1 <= pos < WIDTH && forall i :: pos < i < WIDTH ==> pn[i] == 0
      {
        if pn[pos] != 0 {
          var bits := 31;
          Pow32();
          while bits > 0
            invariant 0 <= bits <= 31 && pn[pos] < Pow(2, bits + 1)
          {
            if pn[pos] / Pow(2, bits) % 2 != 0 {
              TopBit(pn[..], pos, bits);
              return 32 * pos + bits + 1;
            }
            BitClear(pn[pos], bits);
            bits := bits - 1;
          }
          PowZero();
          TopBit(pn[..], pos, 0);
          return 32 * pos + 1;
        }
        pos := pos - 1;
      }
      ValZero(pn[..]);
      PowZero();
      return 0;
    }

    // ---------------------------------------------------------------------- division

    /** Floor division by shifting and subtracting; what is left in `num` is the remainder. Fails on a zero divisor. */
    method DivAssign(b: BaseUint) returns (ok: bool, num: BaseUint)
      requires Valid() && b.Valid() && b.WIDTH == WIDTH && (b == this || b.pn != pn)
      modifies pn
      ensures num.Valid() && fresh(num) && fresh(num.pn)
      ensures ok <==> old(b.Value()) != 0
      ensures ok ==> Value() == old(Value()) / old(b.Value()) && num.Value() == old(Value()) % old(b.Value())
      ensures !ok ==> Value() == 0
    {
      var div := new BaseUint.Copy(b);
      num := new BaseUint.Copy(this);
      ghost var N, D := Value(), b.Value();
      hide Val, Pow;
      SetZero();
      var num_bits := num.Bits();
      var div_bits := div.Bits();
      if div_bits == 0 {
        return false, num;
      }
      if div_bits > num_bits {
        TooSmall(N, D, num_bits, div_bits);
        return true, num;
      }
      DivideAligned(div, num, num_bits - div_bits, N, D, num_bits);
      ModFrom(num.Value(), Value(), D, N);
      return true, num;
    }

    method DivideAligned(div: BaseUint, num: BaseUint, shift0: nat, ghost N: nat, ghost D: nat, ghost num_bits: nat)
      requires Valid() && div.Valid() && num.Valid() && div.WIDTH == num.WIDTH == WIDTH
      requires pn != div.pn && pn != num.pn && div.pn != num.pn
      requires forall i :: 0 <= i < WIDTH ==> pn[i] == 0
      requires div.Value() == D && num.Value() == N < Pow(2, num_bits) && shift0 < num_bits <= 32 * WIDTH
      requires Pow(2, num_bits - shift0 - 1) <= D < Pow(2, num_bits - shift0)
      modifies pn, div.pn, num.pn
      ensures Value() * D + num.Value() == N && num.Value() < D
    {
      hide Val, Pow, LowClear, BitOr;
      var shift: int := shift0;
      Aligned(N, D, num_bits, shift0, WIDTH);
      div.ShiftLeft(shift);
      ValZero(pn[..]);
      AllClear(pn[..], shift + 1);
      while shift >= 0
        invariant -1 <= shift < 32 * WIDTH
        invariant shift >= 0 ==> div.Value() == D * Pow(2, shift)
        invariant Value() * D + num.Value() == N && num.Value() < D * Pow(2, shift + 1)
        invariant LowClear(pn[..], shift + 1)
      {
        ghost var x, q := num.Value(), Value();
        ghost var was := pn[..];
        var c := num.CompareTo(div);
        if c >= 0 {
          ValBound(num.pn[..]);
          num.SubAssign(div);
          ModFrom(x - div.Value(), 0, Modulus(), x - div.Value());
          SetClearBit(was, shift);
          pn[shift / 32] := BitOr(pn[shift / 32], Pow(2, shift % 32));
        } else {
          LessClear(was, shift);
        }
        Divided(q, D, x, N, shift);
        div.ShiftRight(1);
        shift := shift - 1;
      }
      PowZero();
    }
  }

  // --------------------------------------------------------------- steps of the loops

  lemma AddStep(x: seq<uint32>, y: seq<uint32>, p: seq<uint32>, p': seq<uint32>, i: nat, carry: nat, carry': nat)
    requires i < |x| == |y| == |p| && p' == p[i := (carry + x[i] + y[i]) % B] && carry' == (carry + x[i] + y[i]) / B
    requires Val(p[..i]) + carry * Pow(B, i) == Val(x[..i]) + Val(y[..i])
    ensures Val(p'[..i + 1]) + carry' * Pow(B, i + 1) == Val(x[..i + 1]) + Val(y[..i + 1])
  {
    ValSnoc(x, i);
    ValSnoc(y, i);
    ValSnoc(p', i);
    assert p'[..i] == p[..i];
    hide Val;
    AddArithmetic(Val(p[..i]), carry, x[i], y[i], Pow(B, i), Val(x[..i]), Val(y[..i]));
  }

  lemma AddArithmetic(v: int, carry: nat, x: nat, y: nat, w: nat, vx: int, vy: int)
    requires v + carry * w == vx + vy
    ensures v + (carry + x + y) % B * w + (carry + x + y) / B * (B * w) == vx + x * w + (vy + y * w)
  {
    Carried(w, carry + x + y);
    assert (carry + x + y) * w == carry * w + x * w + y * w;
  }

  /** A limb keeps the low half and the carry takes the high half. */
  lemma Carried(w: nat, n: nat)
    ensures n % B * w + n / B * (B * w) == n * w
  {
    assert n == n % B + n / B * B;
    assert n / B * (B * w) == (n / B * B) * w;
    assert (n % B + n / B * B) * w == n % B * w + (n / B * B) * w;
  }

  lemma Mul32Step(x: seq<uint32>, p: seq<uint32>, p': seq<uint32>, i: nat, b: nat, carry: nat, carry': nat)
    requires i < |x| == |p| && p' == p[i := (carry + b * x[i]) % B] && carry' == (carry + b * x[i]) / B
    requires Val(p[..i]) + carry * Pow(B, i) == Val(x[..i]) * b
    ensures Val(p'[..i + 1]) + carry' * Pow(B, i + 1) == Val(x[..i + 1]) * b
  {
    ValSnoc(x, i);
    ValSnoc(p', i);
    assert p'[..i] == p[..i];
    hide Val;
    Mul32Arithmetic(Val(p[..i]), carry, x[i], b, Pow(B, i), Val(x[..i]));
  }

  lemma Mul32Arithmetic(v: int, carry: nat, x: nat, b: nat, w: nat, vx: int)
    requires v + carry * w == vx * b
    ensures v + (carry + b * x) % B * w + (carry + b * x) / B * (B * w) == (vx + x * w) * b
  {
    Carried(w, carry + b * x);
    assert (carry + b * x) * w == carry * w + (b * x) * w;
    assert (vx + x * w) * b == vx * b + (b * x) * w;
  }

  /** `i` limbs of `x * b`, shifted by `j` limbs, have been added, and `carry` goes into the next limb. */
  ghost predicate RowAdded(b: seq<uint32>, i: nat, j: nat, x: nat, before: nat, after: nat, carry: nat)
    requires i <= |b|
  {
    after + carry * Pow(B, i + j) == before + x * Pow(B, j) * Val(b[..i])
  }

  /** Up to a multiple of the modulus, the first `j` limbs of `a` have been multiplied by `y`. */
  ghost predicate RowsAdded(a: seq<uint32>, y: seq<uint32>, j: nat, value: nat)
    requires j <= |a|
  {
    exists q: nat :: value + q * Pow(B, |a|) == Val(a[..j]) * Val(y)
  }

  lemma RowStep(p: seq<uint32>, b: seq<uint32>, i: nat, j: nat, x: nat, carry: nat, before: nat, n: nat)
    requires i + j < |p| == |b| && n == carry + p[i + j] + x * b[i]
    requires RowAdded(b, i, j, x, before, Val(p), carry)
    ensures RowAdded(b, i + 1, j, x, before, Val(p[i + j := n % B]), n / B)
  {
    var w := Pow(B, i + j);
    ValUpdate(p, i + j, n % B);
    ValSnoc(b, i);
    PowAdd(B, j, i);
    assert Pow(B, i + j + 1) == B * w;
    hide Val, Pow;
    Carried(w, n);
    RowArithmetic(Val(p), n % B, p[i + j], w, n, carry, x, b[i], before, Pow(B, j), Pow(B, i), Val(b[..i]), n / B * (B * w));
  }

  lemma RowStart(b: seq<uint32>, j: nat, x: nat, before: nat)
    ensures RowAdded(b, 0, j, x, before, before, 0)
  {
  }

  lemma NoRows(a: seq<uint32>, y: seq<uint32>)
    ensures RowsAdded(a, y, 0, 0)
  {
    assert 0 + 0 * Pow(B, |a|) == Val(a[..0]) * Val(y);
  }

  lemma AllRows(a: seq<uint32>, y: seq<uint32>, value: nat)
    requires RowsAdded(a, y, |a|, value) && value < Pow(B, |a|)
    ensures value == Val(a) * Val(y) % Pow(B, |a|)
  {
    var q: nat :| value + q * Pow(B, |a|) == Val(a[..|a|]) * Val(y);
    assert a[..|a|] == a;
    hide Val, Pow;
    ModFrom(value, q, Pow(B, |a|), Val(a) * Val(y));
  }

  lemma RowArithmetic(v: int, r: int, o: int, w: int, n: int, carry: int, x: int, y: int, before: int, pj: int, pi: int, vb: int, high: int)
    requires n == carry + o + x * y && r * w + high == n * w && w == pj * pi
    requires v + carry * w == before + x * pj * vb
    ensures v + (r - o) * w + high == before + x * pj * (vb + y * pi)
  {
    assert (r - o) * w == r * w - o * w;
    assert n * w == carry * w + o * w + (x * y) * w;
    assert x * pj * (vb + y * pi) == x * pj * vb + (x * y) * w by {
      assert x * pj * (y * pi) == (x * y) * (pj * pi);
    }
  }

  /** A finished row adds a limb of the multiplier, up to a multiple of the modulus. */
  lemma RowDone(a: seq<uint32>, y: seq<uint32>, j: nat, before: nat, after: nat, carry: nat)
    requires j < |a| == |y|
    requires RowsAdded(a, y, j, before) && RowAdded(y, |y| - j, j, a[j], before, after, carry)
    ensures RowsAdded(a, y, j + 1, after)
  {
    var q: nat :| before + q * Pow(B, |a|) == Val(a[..j]) * Val(y);
    hide *;
    RowDoneWith(a, y, j, before, after, carry, q);
  }

  lemma RowDoneWith(a: seq<uint32>, y: seq<uint32>, j: nat, before: nat, after: nat, carry: nat, q: nat)
    requires j < |a| == |y|
    requires before + q * Pow(B, |a|) == Val(a[..j]) * Val(y) && RowAdded(y, |y| - j, j, a[j], before, after, carry)
    ensures RowsAdded(a, y, j + 1, after)
  {
    hide Val, Pow, RowsAdded;
    ValSnoc(a, j);
    ValSplit(y, |y| - j);
    PowAdd(B, j, |a| - j);
    RowsArithmetic(Val(a[..j]), a[j], Pow(B, j), Pow(B, |a| - j), Val(y[..|y| - j]), Val(y[|y| - j..]), Pow(B, |a|), before, after, carry, q);
    RowsWitness(a, y, j + 1, after, q + carry + a[j] * Val(y[|y| - j..]));
  }

  lemma RowsWitness(a: seq<uint32>, y: seq<uint32>, j: nat, value: nat, q: nat)
    requires j <= |a| && value + q * Pow(B, |a|) == Val(a[..j]) * Val(y)
    ensures RowsAdded(a, y, j, value)
  {
  }

  lemma RowsArithmetic(va: int, x: int, pj: int, pd: int, low: int, high: int, w: int, before: int, after: int, carry: int, q: int)
    requires w == pj * pd
    requires before + q * w == va * (low + pd * high) && after + carry * w == before + x * pj * low
    ensures after + (q + carry + x * high) * w == (va + x * pj) * (low + pd * high)
  {
    assert (q + carry + x * high) * w == q * w + carry * w + (x * high) * w;
    assert (va + x * pj) * (low + pd * high) == va * (low + pd * high) + x * pj * low + (x * high) * w by {
      assert (x * pj) * (pd * high) == (x * high) * (pj * pd);
    }
  }

  lemma NegStep(x: seq<uint32>, r: seq<uint32>, i: nat)
    requires i < |x| == |r| && r[i] == B - 1 - x[i] && Val(r[..i]) + Val(x[..i]) == Pow(B, i) - 1
    ensures Val(r[..i + 1]) + Val(x[..i + 1]) == Pow(B, i + 1) - 1
  {
    ValSnoc(x, i);
    ValSnoc(r, i);
    assert Pow(B, i + 1) == B * Pow(B, i);
    hide Val, Pow;
    NegArithmetic(x[i], Pow(B, i));
  }

  lemma NegArithmetic(x: int, w: int)
    ensures (B - 1 - x) * w == B * w - w - x * w
  {
  }

  lemma NegMod(x: nat, y: nat, m: nat, r: nat)
    requires x + y == m - 1 && r == (x + 1) % m
    ensures r == (0 - y) % m
  {
    ModFrom(r, (x + 1) / m - 1, m, 0 - y);
  }

  lemma SubMod(x: nat, y: nat, m: nat, n: nat)
    requires m > 0 && n == (0 - y) % m
    ensures (x + n) % m == (x - y) % m
  {
    var r := (x + n) % m;
    ModFrom(r, (x + n) / m + (0 - y) / m, m, x - y);
  }

  lemma StepAt(s: seq<uint32>, i: nat, d: int)
    requires i < |s| && (d == 1 || d == -1)
    ensures 0 <= (s[i] + d) % B < B && Pow(B, 0) == 1
    ensures Val(s[i := (s[i] + d) % B]) == Val(s) + d * Pow(B, i)
              - (if s[i] + d == B then Pow(B, i + 1) else if s[i] + d < 0 then 0 - Pow(B, i + 1) else 0)
  {
    var r := (s[i] + d) % B;
    StepLimb(s[i], d, Pow(B, i));
    ValUpdate(s, i, r);
    assert Pow(B, i + 1) == B * Pow(B, i) && Pow(B, 0) == 1;
    hide Val, Pow;
  }

  lemma StepLimb(x: uint32, d: int, w: nat)
    requires d == 1 || d == -1
    ensures var r := (x + d) % B;
            (r - x) * w == d * w - (if x + d == B then B * w else if x + d < 0 then 0 - B * w else 0)
  {
    if x + d == B {
      ModFrom(0, 1, B, x + d);
      assert (0 - x) * w == d * w - B * w;
    } else if x + d < 0 {
      ModFrom(B - 1, -1, B, x + d);
    } else {
      ModFrom(x + d, 0, B, x + d);
    }
  }

  lemma PowZero()
    ensures Pow(2, 0) == 1 && Pow(2, 1) == 2
  {
  }

  lemma BitClear(x: nat, bits: nat)
    requires x < Pow(2, bits + 1) && x / Pow(2, bits) % 2 == 0
    ensures x < Pow(2, bits)
  {
    var p := Pow(2, bits);
    assert Pow(2, bits + 1) == 2 * p;
    if x >= p {
      ModFrom(x - p, 1, p, x);
    }
  }

  /** The highest bit of the highest non-zero limb. */
  lemma TopBit(s: seq<uint32>, pos: nat, bits: nat)
    requires pos < |s| && (forall i :: pos < i < |s| ==> s[i] == 0)
    requires 0 < s[pos] < Pow(2, bits + 1) && (s[pos] / Pow(2, bits) % 2 != 0 || bits == 0)
    ensures 0 < Pow(2, 32 * pos + bits) <= Val(s) < Pow(2, 32 * pos + bits + 1)
  {
    var p, w := Pow(2, bits), Pow(B, pos);
    ValSplit(s, pos + 1);
    ValZero(s[pos + 1..]);
    ValSnoc(s, pos);
    ValBound(s[..pos]);
    PowLimbs(pos);
    PowAdd(2, 32 * pos, bits);
    PowAdd(2, 32 * pos, bits + 1);
    PowZero();
    hide Val, Pow;
    assert p <= s[pos] by {
      if s[pos] < p {
        ModFrom(s[pos], 0, p, s[pos]);
      }
    }
    hide *;
    Between(Val(s[..pos]), s[pos], w, p, Pow(2, bits + 1));
  }

  lemma Between(low: nat, x: nat, w: nat, p: nat, p': nat)
    requires low < w && p <= x < p'
    ensures w * p <= low + x * w < w * p'
  {
    MulGrows(p, x, w);
    MulGrows(x + 1, p', w);
    assert (x + 1) * w == x * w + w;
  }

  // -------------------------------------------------------------- steps of the shifts

  lemma ZeroFits(shift: nat)
    ensures 0 < Pow(2, shift)
  {
  }

  /** A shifted limb has room for as many low bits as it was shifted by. */
  lemma JoinBits(y: uint32, shift: nat, low: nat)
    requires shift <= 32 && low < Pow(2, shift)
    ensures BitOr(low, y * Pow(2, shift) % B) == y * Pow(2, shift) % B + low
  {
    ShiftParts(y, shift);
    hide Pow;
    OrDisjoint(y % Pow(2, 32 - shift), shift, low);
  }

  /** Limb `m` after `i` iterations of a left shift: finished, or holding the bits carried into it, or untouched. */
  ghost function LeftLimb(a: seq<uint32>, k: nat, shift: nat, i: nat, m: nat): int
    requires shift < 32 && i <= |a|
  {
    ZeroFits(shift);
    if m < k then 0
    else if m < i + k then ShiftUp(a, shift, 0)[m - k]
    else if m == i + k && i > 0 then a[i - 1] / Pow(2, 32 - shift) else 0
  }

  lemma LeftStores(a: seq<uint32>, k: nat, shift: nat, i: nat)
    requires shift < 32 && i < |a|
    ensures 0 < Pow(2, shift) && a[i] / Pow(2, 32 - shift) < B && (shift == 0 ==> a[i] / Pow(2, 32 - shift) == 0)
    ensures LeftLimb(a, k, shift, i, i + k + 1) == 0 && BitOr(0, a[i] / Pow(2, 32 - shift)) == a[i] / Pow(2, 32 - shift)
    ensures LeftLimb(a, k, shift, i, i + k) >= 0
    ensures BitOr(LeftLimb(a, k, shift, i, i + k), a[i] * Pow(2, shift) % B) == ShiftUp(a, shift, 0)[i]
  {
    hide Pow, ShiftUp;
    ZeroFits(shift);
    HighBits(a[i], shift);
    LeftJoin(a, shift, i);
    assert i == 0 ==> LeftLimb(a, k, shift, i, i + k) == 0;
    assert i > 0 ==> LeftLimb(a, k, shift, i, i + k) == a[i - 1] / Pow(2, 32 - shift);
  }

  lemma HighBits(x: uint32, shift: nat)
    requires shift < 32
    ensures x / Pow(2, 32 - shift) < Pow(2, shift) <= B && (shift == 0 ==> x / Pow(2, 32 - shift) == 0)
  {
    ShiftParts(x, shift);
    PowGrows(2, shift, 32);
    Pow32();
    hide Pow;
    if shift == 0 {
      ModFrom(x, 0, B, x);
    }
  }

  lemma LeftJoin(a: seq<uint32>, shift: nat, i: nat)
    requires shift < 32 && i < |a| && 0 < Pow(2, shift)
    ensures BitOr(if i == 0 then 0 else a[i - 1] / Pow(2, 32 - shift), a[i] * Pow(2, shift) % B) == ShiftUp(a, shift, 0)[i]
  {
    hide Pow, ShiftUp, BitOr;
    ShiftUpAt(a, shift, 0, i);
    if i > 0 {
      HighBits(a[i - 1], shift);
    }
    JoinBits(a[i], shift, if i == 0 then 0 else a[i - 1] / Pow(2, 32 - shift));
  }

  /** Limb `m` after `i` iterations of a right shift: finished, or still missing the bits from above, or untouched. */
  ghost function RightLimb(a: seq<uint32>, k: nat, shift: nat, i: nat, m: nat): int
    requires shift < 32 && i <= |a|
  {
    ZeroFits(shift);
    if m + k + 1 < i then ShiftDown(a, shift)[m + k]
    else if m + k + 1 == i then a[i - 1] / Pow(2, shift) else 0
  }

  lemma RightStores(a: seq<uint32>, k: nat, shift: nat, i: nat)
    requires shift < 32 && i < |a|
    ensures 0 < Pow(2, shift) && a[i] / Pow(2, shift) < B
    ensures BitOr(0, a[i] / Pow(2, shift)) == a[i] / Pow(2, shift)
    ensures i > 0 ==> a[i - 1] / Pow(2, shift) >= 0
    ensures i > 0 ==> BitOr(a[i - 1] / Pow(2, shift), a[i] * Pow(2, 32 - shift) % B) == ShiftDown(a, shift)[i - 1]
    ensures i > 0 && shift == 0 ==> a[i - 1] / Pow(2, shift) == ShiftDown(a, shift)[i - 1]
  {
    hide Pow, ShiftDown;
    ZeroFits(shift);
    DownFits(a[i], a[i], shift);
    if i > 0 {
      RightJoin(a, shift, i);
    }
  }

  lemma LowBits(x: uint32, shift: nat)
    requires shift < 32
    ensures 0 <= x / Pow(2, shift) < Pow(2, 32 - shift)
    ensures shift == 0 ==> x * Pow(2, 32 - shift) % B == 0
  {
    ShiftParts(x, 32 - shift);
    Pow32();
    hide Pow;
    if shift == 0 {
      ZeroLow(x);
    }
  }

  lemma ZeroLow(x: uint32)
    ensures x * B % B == 0
  {
    ModFrom(0, x, B, x * B);
  }

  lemma RightJoin(a: seq<uint32>, shift: nat, i: nat)
    requires shift < 32 && 0 < i < |a| && 0 < Pow(2, shift)
    ensures a[i - 1] / Pow(2, shift) >= 0
    ensures BitOr(a[i - 1] / Pow(2, shift), a[i] * Pow(2, 32 - shift) % B) == ShiftDown(a, shift)[i - 1]
    ensures shift == 0 ==> a[i - 1] / Pow(2, shift) == ShiftDown(a, shift)[i - 1]
  {
    hide Pow, ShiftDown, BitOr;
    ShiftDownAt(a, shift, i - 1);
    assert Head(a[i..]) == a[i];
    LowBits(a[i], shift);
    LowBits(a[i - 1], shift);
    JoinBits(a[i], 32 - shift, a[i - 1] / Pow(2, shift));
  }

  /** The top limb receives no bits from above. */
  lemma RightLast(a: seq<uint32>, k: nat, shift: nat)
    requires shift < 32 && a != []
    ensures 0 < Pow(2, shift) && ShiftDown(a, shift)[|a| - 1] == a[|a| - 1] / Pow(2, shift)
  {
    ZeroFits(shift);
    ShiftDownAt(a, shift, |a| - 1);
    hide Pow, ShiftDown;
    assert a[|a|..] == [];
    ModFrom(0, 0, B, 0);
  }

  // ------------------------------------------------------------- steps of the division

  /** The `e` lowest bits are zero. */
  ghost predicate LowClear(s: seq<uint32>, e: nat) {
    forall m :: 0 <= m < |s| ==> LimbClear(s[m], m, e)
  }

  ghost predicate LimbClear(x: uint32, m: nat, e: nat) {
    && (32 * (m + 1) <= e ==> x == 0)
    && (32 * m <= e < 32 * (m + 1) ==> x % Pow(2, e - 32 * m) == 0)
  }

  lemma AllClear(s: seq<uint32>, e: nat)
    requires forall i :: 0 <= i < |s| ==> s[i] == 0
    ensures LowClear(s, e)
  {
    forall m | 0 <= m < |s|
      ensures LimbClear(s[m], m, e)
    {
      if 32 * m <= e {
        ModFrom(0, 0, Pow(2, e - 32 * m), 0);
      }
    }
  }

  /** The limb that holds bit `shift`, when that bit and all below are clear. */
  lemma LimbMultiple(x: uint32, shift: nat) returns (t: nat)
    requires LimbClear(x, shift / 32, shift + 1)
    ensures x == t * Pow(2, shift % 32 + 1)
  {
    var r := shift % 32;
    if r < 31 {
      t := x / Pow(2, r + 1);
    } else {
      t := 0;
    }
  }

  lemma LessClear(s: seq<uint32>, shift: nat)
    requires LowClear(s, shift + 1)
    ensures LowClear(s, shift)
  {
    forall m | 0 <= m < |s|
      ensures LimbClear(s[m], m, shift)
    {
      assert LimbClear(s[m], m, shift + 1);
      if m == shift / 32 {
        var t := LimbMultiple(s[m], shift);
        LowBitsClear(t, shift % 32);
      }
    }
  }

  lemma LowBitsClear(t: nat, r: nat)
    ensures t * Pow(2, r + 1) % Pow(2, r) == 0 && (t * Pow(2, r + 1) + Pow(2, r)) % Pow(2, r) == 0
  {
    var p := Pow(2, r);
    assert t * Pow(2, r + 1) == (2 * t) * p;
    assert (2 * t) * p + p == (2 * t + 1) * p;
    ModFrom(0, 2 * t, p, (2 * t) * p);
    ModFrom(0, 2 * t + 1, p, (2 * t + 1) * p);
  }

  /** Setting bit `shift` adds its weight. */
  lemma SetClearBit(s: seq<uint32>, shift: nat)
    requires LowClear(s, shift + 1) && shift < 32 * |s|
    ensures BitOr(s[shift / 32], Pow(2, shift % 32)) < B
    ensures var s' := s[shift / 32 := BitOr(s[shift / 32], Pow(2, shift % 32))];
            Val(s') == Val(s) + Pow(2, shift) && LowClear(s', shift)
  {
    hide Val, Pow, BitOr;
    var l, r := shift / 32, shift % 32;
    assert LimbClear(s[l], l, shift + 1);
    var t := LimbMultiple(s[l], shift);
    OrFits(t, r, s[l]);
    var x := BitOr(s[l], Pow(2, r));
    ValUpdate(s, l, x);
    BitWeight(l, r);
    LowBitsClear(t, r);
    LessClear(s, shift);
    var s' := s[l := x];
    forall m | 0 <= m < |s'|
      ensures LimbClear(s'[m], m, shift)
    {
      assert m != l ==> s'[m] == s[m];
    }
  }

  lemma BitWeight(l: nat, r: nat)
    ensures Pow(2, r) * Pow(B, l) == Pow(2, 32 * l + r)
  {
    PowLimbs(l);
    PowAdd(2, r, 32 * l);
  }

  lemma OrFits(t: nat, r: nat, x: uint32)
    requires r < 32 && x == t * Pow(2, r + 1)
    ensures BitOr(x, Pow(2, r)) == x + Pow(2, r) < B
  {
    assert Pow(2, r + 1) == 2 * Pow(2, r);
    PowAdd(2, r + 1, 31 - r);
    Pow32();
    OrDisjoint(t, r + 1, Pow(2, r));
    hide Pow, BitOr;
    Room(t, Pow(2, r + 1), Pow(2, 31 - r));
  }

  /** The next multiple still fits. */
  lemma Room(t: nat, p: nat, d: nat)
    requires t * p < p * d
    ensures t * p + p <= p * d
  {
    if t >= d {
      MulGrows(d, t, p);
    }
    MulGrows(t + 1, d, p);
    assert (t + 1) * p == t * p + p;
  }

  lemma TooSmall(n: nat, d: nat, nb: nat, db: nat)
    requires n < Pow(2, nb) && db > nb && Pow(2, db - 1) <= d
    ensures n / d == 0 && n % d == n
  {
    PowGrows(2, nb, db - 1);
    ModFrom(n, 0, d, n);
  }

  /** The shifted divisor fits and the dividend is less than twice as large. */
  lemma Aligned(n: nat, d: nat, nb: nat, shift: nat, width: nat)
    requires n < Pow(2, nb) && shift < nb <= 32 * width
    requires Pow(2, nb - shift - 1) <= d < Pow(2, nb - shift)
    ensures d * Pow(2, shift) % Pow(B, width) == d * Pow(2, shift) && n < d * Pow(2, shift + 1)
  {
    PowAdd(2, nb - shift, shift);
    PowAdd(2, nb - shift - 1, shift + 1);
    PowGrows(2, nb, 32 * width);
    PowLimbs(width);
    hide Pow;
    MulGrows(d, Pow(2, nb - shift), Pow(2, shift));
    MulGrows(Pow(2, nb - shift - 1), d, Pow(2, shift + 1));
    LessProduct(d, Pow(2, nb - shift), Pow(2, shift));
    ModFrom(d * Pow(2, shift), 0, Pow(B, width), d * Pow(2, shift));
  }

  lemma LessProduct(a: nat, b: nat, c: nat)
    requires a < b && c > 0
    ensures a * c < b * c
  {
    MulGrows(a + 1, b, c);
    assert (a + 1) * c == a * c + c;
  }

  /** One quotient bit: the invariant of the division loop for the next lower position. */
  lemma Divided(q: nat, d: nat, x: nat, n: nat, shift: nat)
    requires q * d + x == n && x < d * Pow(2, shift + 1)
    ensures x >= d * Pow(2, shift) ==> (q + Pow(2, shift)) * d + (x - d * Pow(2, shift)) == n
    ensures x >= d * Pow(2, shift) ==> x - d * Pow(2, shift) < d * Pow(2, shift)
    ensures shift > 0 ==> d * Pow(2, shift) / Pow(2, 1) == d * Pow(2, shift - 1)
  {
    var p := Pow(2, shift);
    assert d * Pow(2, shift + 1) == 2 * (d * p);
    assert (q + p) * d == q * d + d * p;
    if shift > 0 {
      PowZero();
      assert d * p == 2 * (d * Pow(2, shift - 1));
    }
  }
}
