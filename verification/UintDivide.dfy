/** Comparison, bit length and shift-subtract division of base_uint
    (src/arith_uint256.cpp). */
module UintDivide {
  import opened Common
  import opened Limbs
  import opened BaseUint

  /** The most significant limb that differs decides. */
  lemma TopDiffers(x: seq<Limb>, y: seq<Limb>, i: nat)
    requires |x| == |y| && i < |x| && x[i + 1..] == y[i + 1..] && x[i] < y[i]
    ensures Value(x) < Value(y)
  {
    hide Mul;
    ValueSplit(x, i + 1);
    ValueSplit(y, i + 1);
    ValueSnoc(x, i);
    ValueSnoc(y, i);
    ValueBound(x[..i]);
    LimbGap(Base(i), x[i], y[i]);
  }

  lemma LimbGap(b: nat, x: nat, y: nat)
    requires x < y
    ensures Mul(b, x) + b <= Mul(b, y)
  {
    MulMonotonic(x + 1, y, b);
    assert (x + 1) * b == b * x + b;
  }

  /** CompareTo. */
  method Compare(a: Uint, b: Uint) returns (r: int)
    requires a.pn.Length == b.pn.Length
    ensures r == if a.Val() < b.Val() then -1 else if a.Val() > b.Val() then 1 else 0
  {
    var i := a.pn.Length;
    while i > 0
      invariant 0 <= i <= a.pn.Length
      invariant a.pn[i..] == b.pn[i..]
    {
      i := i - 1;
      assert a.pn[..][i + 1..] == a.pn[i + 1..] && b.pn[..][i + 1..] == b.pn[i + 1..];
      if a.pn[i] < b.pn[i] {
        TopDiffers(a.pn[..], b.pn[..], i);
        return -1;
      }
      if a.pn[i] > b.pn[i] {
        TopDiffers(b.pn[..], a.pn[..], i);
        return 1;
      }
      assert a.pn[i..] == [a.pn[i]] + a.pn[i + 1..] && b.pn[i..] == [b.pn[i]] + b.pn[i + 1..];
    }
    assert a.pn[..] == a.pn[0..] && b.pn[..] == b.pn[0..];
    return 0;
  }

  // ---- bit length ----

  ghost predicate HasBits(v: nat, n: nat) {
    if n == 0 then v == 0 else Pow2(n - 1) <= v < Pow2(n)
  }

  lemma {:induction false} TopBit(x: nat, bit: nat)
    requires x < Pow2(bit + 1)
    ensures TestBit(x, bit) <==> Pow2(bit) <= x
  {
    if bit > 0 { TopBit(x / 2, bit - 1); }
  }

  lemma LimbBits(x: seq<Limb>, pos: nat, n: nat)
    requires pos < |x| && n > 0 && HasBits(x[pos], n) && forall i :: pos < i < |x| ==> x[i] == 0
    ensures HasBits(Value(x), 32 * pos + n)
  {
    hide Mul, Pow2;
    ValueSplit(x, pos + 1);
    ValueZero(x[pos + 1..]);
    ValueSnoc(x, pos);
    ValueBound(x[..pos]);
    BaseIsPow2(pos);
    Pow2Add(32 * pos, n);
    Pow2Add(32 * pos, n - 1);
    BitsScale(Base(pos), Base(pos + 1), x[pos], Pow2(n - 1), Pow2(n), Value(x[..pos]));
  }

  lemma BitsScale(b: nat, b': nat, x: nat, low: nat, high: nat, v: nat)
    requires low <= x < high && v < b
    ensures b * low <= v + Mul(b, x) < b * high && Mul(b', 0) == 0
  {
    MulMonotonic(low, x, b);
    MulMonotonic(x + 1, high, b);
    assert (x + 1) * b == b * x + b;
  }

  /** The position of the highest set bit plus one, or zero. */
  method Bits(a: Uint) returns (n: nat)
    ensures HasBits(a.Val(), n) && n <= 32 * a.pn.Length
  {
    hide Value;
    var pos := a.pn.Length;
    while pos > 0
      invariant 0 <= pos <= a.pn.Length
      invariant forall i :: pos <= i < a.pn.Length ==> a.pn[i] == 0
    {
      pos := pos - 1;
      if a.pn[pos] != 0 {
        var bit := LimbLength(a.pn[pos]);
        LimbBits(a.pn[..], pos, bit);
        return 32 * pos + bit;
      }
    }
    ValueZero(a.pn[..]);
    return 0;
  }

  method LimbLength(x: Limb) returns (n: nat)
    requires x != 0
    ensures HasBits(x, n) && 0 < n <= 32
  {
    Pow2Limb();
    var bits := 31;
    while bits > 0
      invariant 0 <= bits <= 31
      invariant x < Pow2(bits + 1)
    {
      TopBit(x, bits);
      if TestBit(x, bits) { return bits + 1; }
      bits := bits - 1;
    }
    assert Pow2(1) == 2;
    return 1;
  }

  // ---- division ----

  /** The n low bits are clear. */
  ghost predicate LowClear(q: seq<Limb>, n: nat) {
    && (forall m :: 0 <= m < n / 32 && m < |q| ==> q[m] == 0)
    && (n / 32 < |q| ==> q[n / 32] % Pow2(n % 32) == 0)
  }

  lemma LimbBitClear(x: Limb, e: nat)
    requires e < 32 && x % Pow2(e + 1) == 0
    ensures Or(x, Pow2(e)) == x + Pow2(e) < LIMB && x % Pow2(e) == 0 && (x + Pow2(e)) % Pow2(e) == 0
  {
    hide Or;
    OrDisjoint(x, Pow2(e), e + 1);
    EvenMultiple(x, Pow2(e));
    Pow2Limb();
    Pow2Add(e + 1, 31 - e);
    hide Pow2;
    RoomAbove(x, Pow2(e + 1), Pow2(31 - e));
  }

  lemma EvenMultiple(x: nat, p: nat)
    requires p > 0 && x % (2 * p) == 0
    ensures x % p == 0 && (x + p) % p == 0
  {
    var k := x / (2 * p);
    assert x == k * (2 * p) == (2 * k) * p;
    ModUnique(x, 2 * k, 0, p);
    ModUnique(x + p, 2 * k + 1, 0, p);
  }

  lemma RoomAbove(x: nat, d: nat, u: nat)
    requires d > 0 && x % d == 0 && x < d * u
    ensures x + d <= d * u
  {
    var k := x / d;
    assert x == k * d;
    BelowMultiple(k, d, u);
  }

  lemma BelowMultiple(k: nat, d: nat, u: nat)
    requires k * d < d * u
    ensures k * d + d <= d * u
  {
    if k >= u { MulMonotonic(u, k, d); }
    MulMonotonic(k + 1, u, d);
    assert (k + 1) * d == k * d + d;
  }

  lemma NextBit(s: nat)
    ensures if s % 32 < 31 then (s + 1) / 32 == s / 32 && (s + 1) % 32 == s % 32 + 1
            else (s + 1) / 32 == s / 32 + 1 && (s + 1) % 32 == 0
  {
    var l, e := s / 32, s % 32;
    if e < 31 { ModUnique(s + 1, l, e + 1, 32); } else { ModUnique(s + 1, l + 1, 0, 32); }
  }

  /** The bits below the highest clear one, and that bit. */
  lemma LowClearHead(q: seq<Limb>, s: nat)
    requires s < 32 * |q| && LowClear(q, s + 1)
    ensures s / 32 < |q| && q[s / 32] % Pow2(s % 32 + 1) == 0
    ensures forall m :: 0 <= m < s / 32 ==> q[m] == 0
  {
    hide Pow2;
    NextBit(s);
    if s % 32 == 31 { ModUnique(0, 0, 0, Pow2(32)); }
  }

  lemma SetBit(q: seq<Limb>, s: nat)
    requires s < 32 * |q| && LowClear(q, s + 1)
    ensures Or(q[s / 32], Pow2(s % 32)) == q[s / 32] + Pow2(s % 32) < LIMB
    ensures LowClear(q[s / 32 := Or(q[s / 32], Pow2(s % 32))], s) && LowClear(q, s)
    ensures Value(q[s / 32 := Or(q[s / 32], Pow2(s % 32))]) == Value(q) + Pow2(s)
  {
    hide Pow2, Or, Value;
    LowClearHead(q, s);
    LimbBitClear(q[s / 32], s % 32);
    BitValue(q, s);
  }

  lemma BitValue(q: seq<Limb>, s: nat)
    requires s < 32 * |q| && q[s / 32] + Pow2(s % 32) < LIMB
    ensures Value(q[s / 32 := q[s / 32] + Pow2(s % 32)]) == Value(q) + Pow2(s)
  {
    hide Pow2, Value, Mul, Base;
    var l, e := s / 32, s % 32;
    LimbChange(q, l, q[l] + Pow2(e));
    Pow2Add(32 * l, e);
    BaseIsPow2(l);
    MulDifference(Base(l), q[l], Pow2(e));
  }

  lemma LimbChange(q: seq<Limb>, l: nat, x: Limb)
    requires l < |q|
    ensures Value(q[l := x]) == Value(q) + Mul(Base(l), x) - Mul(Base(l), q[l])
  {
    hide Mul;
    var r := q[l := x];
    ValueSplit(q, l + 1);
    ValueSplit(r, l + 1);
    ValueSnoc(q, l);
    ValueSnoc(r, l);
    assert r[..l] == q[..l] && r[l + 1..] == q[l + 1..];
  }

  lemma MulDifference(b: nat, x: nat, d: nat)
    ensures Mul(b, x + d) - Mul(b, x) == b * d
  {
    assert b * (x + d) == b * x + b * d;
  }

  /** The divisor moved up to bit s. */
  ghost function Scaled(d: nat, s: nat): nat { d * Pow2(s) }

  /** The division loop before it handles bit `shift`: the quotient bits found so
      far lie above it and the rest of the dividend is below twice the divisor
      at that position. */
  ghost predicate Dividing(dividend: nat, divisor: nat, quotient: nat, num: nat, shift: int) {
    && shift >= -1 && divisor > 0
    && dividend == quotient * divisor + num
    && num < Scaled(divisor, shift + 1)
  }

  lemma DivideStart(dividend: nat, divisor: nat, n: nat, d: nat)
    requires HasBits(dividend, n) && HasBits(divisor, d) && 0 < d <= n
    ensures Dividing(dividend, divisor, 0, dividend, n - d)
    ensures Scaled(divisor, n - d) < Pow2(n)
  {
    hide Pow2;
    Pow2Add(d - 1, n - d + 1);
    Pow2Add(d, n - d);
    MulMonotonic(Pow2(d - 1), divisor, Pow2(n - d + 1));
    MulMonotonic(divisor + 1, Pow2(d), Pow2(n - d));
    assert (divisor + 1) * Pow2(n - d) == divisor * Pow2(n - d) + Pow2(n - d);
  }

  lemma DivideNext(dividend: nat, divisor: nat, quotient: nat, num: nat, shift: nat)
    requires Dividing(dividend, divisor, quotient, num, shift)
    ensures num >= Scaled(divisor, shift) ==>
              Dividing(dividend, divisor, quotient + Pow2(shift), num - Scaled(divisor, shift), shift - 1)
    ensures num < Scaled(divisor, shift) ==> Dividing(dividend, divisor, quotient, num, shift - 1)
    ensures shift > 0 ==> Scaled(divisor, shift) / Pow2(1) == Scaled(divisor, shift - 1)
  {
    var p := Pow2(shift);
    assert divisor * (2 * p) == divisor * p + divisor * p;
    assert (quotient + p) * divisor == quotient * divisor + divisor * p;
    if shift > 0 {
      var r := Pow2(shift - 1);
      assert Pow2(1) == 2;
      assert divisor * (2 * r) == 2 * (divisor * r);
    }
  }

  lemma DivideEnd(dividend: nat, divisor: nat, quotient: nat, num: nat)
    requires Dividing(dividend, divisor, quotient, num, -1)
    ensures quotient == dividend / divisor && num == dividend % divisor
  {
    assert Pow2(0) == 1;
    ModUnique(dividend, quotient, num, divisor);
  }

  /** operator/=: exact quotient, or failure (leaving zero) on a zero divisor. */
  method Divide(a: Uint, b: Uint) returns (ok: bool)
    requires a.pn.Length >= 1 && a.pn.Length == b.pn.Length && (a == b || a.pn != b.pn)
    modifies a.pn
    ensures ok <==> old(b.Val()) != 0
    ensures ok ==> a.Val() == old(a.Val()) / old(b.Val())
    ensures !ok ==> a.Val() == 0
  {
    ghost var dividend, divisor := a.Val(), b.Val();
    var div := new Uint.Copy(b);
    var num := new Uint.Copy(a);
    a.Clear();
    ValueZero(a.pn[..]);
    var numBits := Bits(num);
    var divBits := Bits(div);
    if divBits == 0 { return false; }
    ok := true;
    if divBits > numBits {
      SmallDividend(dividend, divisor, numBits, divBits);
      return;
    }
    DivideLoop(a, num, div, numBits - divBits, numBits, dividend, divisor);
  }

  method DivideLoop(a: Uint, num: Uint, div: Uint, start: nat, ghost n: nat, ghost dividend: nat, ghost divisor: nat)
    requires a.pn.Length == num.pn.Length == div.pn.Length >= 1
    requires a.pn != num.pn && a.pn != div.pn && num.pn != div.pn
    requires forall m :: 0 <= m < a.pn.Length ==> a.pn[m] == 0
    requires num.Val() == dividend && div.Val() == divisor
    requires start <= n && HasBits(dividend, n) && HasBits(divisor, n - start) && start < n <= 32 * a.pn.Length
    modifies a.pn, num.pn, div.pn
    ensures divisor > 0 && a.Val() == dividend / divisor && num.Val() == dividend % divisor
  {
    ValueZero(a.pn[..]);
    hide Value, Base, Pow2, HasBits, Dividing, LowClear, Or, Scaled;
    DivideStart(dividend, divisor, n, n - start);
    AlignedFits(divisor, start, n, a.pn.Length);
    div.ShiftLeft(start);
    ZeroClear(a.pn[..], start + 1);
    var shift: int := start;
    while shift >= 0
      invariant -1 <= shift <= start
      invariant Dividing(dividend, divisor, a.Val(), num.Val(), shift)
      invariant shift >= 0 ==> div.Val() == Scaled(divisor, shift)
      invariant LowClear(a.pn[..], shift + 1)
    {
      DivideBit(a, num, div, shift, dividend, divisor);
      shift := shift - 1;
    }
    DivideEnd(dividend, divisor, a.Val(), num.Val());
  }

  /** One turn of the loop: subtract and set the bit if the divisor fits. */
  method DivideBit(a: Uint, num: Uint, div: Uint, shift: nat, ghost dividend: nat, ghost divisor: nat)
    requires a.pn.Length == num.pn.Length == div.pn.Length >= 1 && shift < 32 * a.pn.Length
    requires a.pn != num.pn && a.pn != div.pn && num.pn != div.pn
    requires Dividing(dividend, divisor, a.Val(), num.Val(), shift)
    requires div.Val() == Scaled(divisor, shift) && LowClear(a.pn[..], shift + 1)
    modifies a.pn, num.pn, div.pn
    ensures Dividing(dividend, divisor, a.Val(), num.Val(), shift - 1)
    ensures shift > 0 ==> div.Val() == Scaled(divisor, shift - 1)
    ensures LowClear(a.pn[..], shift)
  {
    hide Value, Base, Pow2, Dividing, LowClear, Or, Scaled;
    DivideNext(dividend, divisor, a.Val(), num.Val(), shift);
    SetBit(a.pn[..], shift);
    var order := Compare(num, div);
    if order >= 0 {
      SubtractSmaller(num, div);
      RaiseBit(a, shift);
    }
    div.ShiftRight(1);
  }

  method SubtractSmaller(a: Uint, b: Uint)
    requires a.pn.Length == b.pn.Length >= 1 && a.Val() >= b.Val()
    modifies a.pn
    ensures a.Val() == old(a.Val()) - old(b.Val())
  {
    hide Value, Base;
    NoBorrow(a, b);
    a.Subtract(b);
  }

  method RaiseBit(a: Uint, shift: nat)
    requires shift < 32 * a.pn.Length && Or(a.pn[shift / 32], Pow2(shift % 32)) < LIMB
    modifies a.pn
    ensures a.pn[..] == old(a.pn[..])[shift / 32 := Or(old(a.pn[shift / 32]), Pow2(shift % 32))]
  {
    hide *;
    a.pn[shift / 32] := Or(a.pn[shift / 32], Pow2(shift % 32));
  }

  lemma AlignedFits(divisor: nat, start: nat, n: nat, width: nat)
    requires Scaled(divisor, start) < Pow2(n) && n <= 32 * width
    ensures (divisor * Pow2(start)) % Base(width) == Scaled(divisor, start)
  {
    BaseIsPow2(width);
    Pow2Monotonic(n, 32 * width);
    ModUnique(Scaled(divisor, start), 0, Scaled(divisor, start), Base(width));
  }

  lemma ZeroClear(q: seq<Limb>, n: nat)
    requires forall m :: 0 <= m < |q| ==> q[m] == 0
    ensures LowClear(q, n)
  {
    ModUnique(0, 0, 0, Pow2(n % 32));
  }

  lemma NoBorrow(a: Uint, b: Uint)
    requires a.pn.Length == b.pn.Length && a.Val() >= b.Val()
    ensures (a.Val() - b.Val()) % a.Modulus() == a.Val() - b.Val()
  {
    a.InRange();
    ModUnique(a.Val() - b.Val(), 0, a.Val() - b.Val(), a.Modulus());
  }

  lemma SmallDividend(dividend: nat, divisor: nat, n: nat, d: nat)
    requires HasBits(dividend, n) && HasBits(divisor, d) && n < d
    ensures divisor > 0 && dividend / divisor == 0
  {
    Pow2Monotonic(n, d - 1);
    ModUnique(dividend, 0, dividend, divisor);
  }
}
