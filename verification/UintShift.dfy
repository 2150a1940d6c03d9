/** The shift operators of base_uint (src/arith_uint256.cpp): what the limb loops
    compute, step by step. */
module UintShift {
  import opened Common
  import opened Limbs

  /** A limb shifted left by s splits at 32 bits into the part that stays and
      the part that moves to the next limb. */
  lemma ShiftSplit(x: Limb, s: nat)
    requires s <= 32
    ensures Pow2(s) * Pow2(32 - s) == LIMB
    ensures (x * Pow2(s)) % LIMB == (x % Pow2(32 - s)) * Pow2(s)
    ensures (x * Pow2(s)) / LIMB == x / Pow2(32 - s)
    ensures x / Pow2(32 - s) < Pow2(s)
    ensures (x % Pow2(32 - s)) * Pow2(s) + Pow2(s) <= LIMB
    ensures Mul(x, Pow2(s)) == (x % Pow2(32 - s)) * Pow2(s) + LIMB * (x / Pow2(32 - s))
  {
    Pow2Limb();
    Pow2Add(s, 32 - s);
    SplitAt(x, Pow2(s), Pow2(32 - s));
  }

  lemma SplitAt(x: nat, t: nat, u: nat)
    requires t > 0 && u > 0 && t * u == LIMB && x < LIMB
    ensures (x * t) % LIMB == (x % u) * t && (x * t) / LIMB == x / u && x / u < t
    ensures (x % u) * t + t <= LIMB
    ensures x * t == (x % u) * t + LIMB * (x / u)
  {
    var q, r := x / u, x % u;
    assert x == q * u + r;
    MulMonotonic(r + 1, u, t);
    assert (r + 1) * t == r * t + t && u * t == t * u;
    assert x * t == q * (t * u) + r * t;
    ModUnique(x * t, q, r * t, LIMB);
    if q >= t { MulMonotonic(t, q, u); }
  }

  // ---- left ----

  /** i limbs of a have been written, shifted by k limbs and s bits; c is what
      the last of them sent to limb k + i. */
  ghost predicate LeftAt(r: seq<Limb>, a: seq<Limb>, k: nat, s: nat, i: nat, c: nat) {
    && |r| == |a| && i + k <= |r| && s < 32 && c < Pow2(s)
    && (i + k < |r| ==> r[i + k] == c && forall m :: i + k < m < |r| ==> r[m] == 0)
    && Value(r[..i + k]) + Mul(Base(i + k), c) == Mul(Mul(Base(k), Pow2(s)), Value(a[..i]))
  }

  lemma LeftStart(r: seq<Limb>, a: seq<Limb>, k: nat, s: nat)
    requires |r| == |a| && k <= |r| && s < 32 && forall m :: 0 <= m < |r| ==> r[m] == 0
    ensures LeftAt(r, a, k, s, 0, 0)
  {
    ValueZero(r[..k]);
    assert Value(a[..0]) == 0;
  }

  function Low(x: Limb, s: nat): (r: Limb)
  {
    (x * Pow2(s)) % LIMB
  }

  /** x >> (32 - s), nothing for a shift by whole limbs. */
  function High(x: Limb, s: nat): (r: Limb)
    requires s < 32
  {
    if s == 0 then 0 else QuotientBound(x, Pow2(32 - s)); x / Pow2(32 - s)
  }

  lemma LeftParts(x: Limb, s: nat, c: nat)
    requires s < 32 && c < Pow2(s)
    ensures Mul(x, Pow2(s)) == Low(x, s) + LIMB * High(x, s)
    ensures High(x, s) < Pow2(s)
    ensures Or(c, Low(x, s)) == c + Low(x, s) < LIMB
    ensures Or(0, High(x, s)) == High(x, s)
  {
    hide Or;
    OrCommutes(0, High(x, s));
    OrZero(High(x, s));
    OrCommutes(c, Low(x, s));
    if s == 0 {
      OrZero(Low(x, s));
    } else {
      hide Pow2;
      ShiftSplit(x, s);
      ModUnique(Low(x, s), x % Pow2(32 - s), 0, Pow2(s));
      OrDisjoint(Low(x, s), c, s);
    }
  }

  lemma LeftNext(r: seq<Limb>, a: seq<Limb>, k: nat, s: nat, i: nat, c: nat)
    requires LeftAt(r, a, k, s, i, c) && i + k < |r|
    ensures Or(c, Low(a[i], s)) < LIMB && Or(0, High(a[i], s)) == High(a[i], s)
    ensures var r1 := if i + k + 1 < |r| then r[i + k + 1 := High(a[i], s)] else r;
            LeftAt(r1[i + k := Or(c, Low(a[i], s))], a, k, s, i + 1, High(a[i], s))
  {
    hide Mul, Low, High;
    LeftParts(a[i], s, c);
    var r1 := if i + k + 1 < |r| then r[i + k + 1 := High(a[i], s)] else r;
    var r' := r1[i + k := Or(c, Low(a[i], s))];
    assert r'[..i + k] == r[..i + k];
    ValueSnoc(r', i + k);
    ValueSnoc(a, i);
    BaseAdd(i, k);
    LeftStep(Base(i), Base(k), Pow2(s), c, Low(a[i], s), High(a[i], s), a[i], Value(a[..i]));
  }

  lemma LeftStep(bi: int, bk: int, t: int, c: int, low: int, high: int, x: int, v: int)
    requires Mul(x, t) == low + LIMB * high
    ensures Mul(Mul(bi, bk), c + low) + Mul(LIMB * Mul(bi, bk), high) + Mul(Mul(bk, t), v)
            == Mul(Mul(bi, bk), c) + Mul(Mul(bk, t), v + Mul(bi, x))
  {
    var b := bi * bk;
    assert b * (c + low) + (LIMB * b) * high == b * c + b * (low + LIMB * high);
    assert (bk * t) * (v + bi * x) == (bk * t) * v + b * (x * t);
  }

  /** Limbs shifted out contribute multiples of the modulus. */
  lemma LeftEnd(r: seq<Limb>, a: seq<Limb>, k: nat, s: nat, c: nat)
    requires k <= |r| && LeftAt(r, a, k, s, |r| - k, c)
    ensures Value(r) == Mul(Value(a), Pow2(32 * k + s)) % Base(|r|)
  {
    hide Mul;
    var i := |r| - k;
    assert r[..|r|] == r;
    ValueSplit(a, i);
    BaseAdd(i, k);
    Pow2Add(32 * k, s);
    BaseIsPow2(k);
    ValueBound(r);
    LeftRest(Base(i), Base(k), Pow2(s), Value(a[..i]), Value(a[i..]), c, Value(r));
  }

  lemma LeftRest(bi: nat, bk: nat, t: nat, low: nat, high: nat, c: nat, r: nat)
    requires r + Mul(Mul(bi, bk), c) == Mul(Mul(bk, t), low) && r < Mul(bi, bk)
    ensures Mul(low + Mul(bi, high), bk * t) % Mul(bi, bk) == r
  {
    var m := bi * bk;
    assert (low + bi * high) * (bk * t) == (bk * t) * low + m * (high * t);
    assert m * c + m * (high * t) == m * (c + high * t);
    ModUnique((low + bi * high) * (bk * t), c + high * t, r, m);
  }

  /** Shifting by the whole width or more leaves nothing. */
  lemma LeftAway(a: nat, width: nat, shift: nat)
    requires shift >= 32 * width
    ensures Mul(a, Pow2(shift)) % Base(width) == 0
  {
    Pow2Add(32 * width, shift - 32 * width);
    BaseIsPow2(width);
    MultipleGone(a, Base(width), Pow2(shift - 32 * width));
  }

  lemma MultipleGone(a: nat, m: nat, u: nat)
    requires m > 0
    ensures Mul(a, m * u) % m == 0
  {
    assert a * (m * u) == (a * u) * m;
    ModUnique(a * (m * u), a * u, 0, m);
  }

  // ---- right ----

  /** Limbs k to i - 1 of a have been written, shifted down by k limbs and s bits. */
  ghost predicate RightAt(r: seq<Limb>, a: seq<Limb>, k: nat, s: nat, i: nat) {
    && |r| == |a| && k <= i <= |r| && s < 32
    && (forall m :: i - k <= m < |r| ==> r[m] == 0)
    && (i > k ==> r[i - k - 1] < Pow2(32 - s))
    && Value(r[..i - k]) == Value(a[k..i]) / Pow2(s)
  }

  lemma RightStart(r: seq<Limb>, a: seq<Limb>, k: nat, s: nat)
    requires |r| == |a| && k <= |r| && s < 32 && forall m :: 0 <= m < |r| ==> r[m] == 0
    ensures RightAt(r, a, k, s, k)
  {
    assert Value(r[..0]) == 0 && Value(a[k..k]) == 0;
    ModUnique(0, 0, 0, Pow2(s));
  }

  /** x << (32 - s) truncated, nothing for a shift by whole limbs. */
  function Carried(x: Limb, s: nat): (r: Limb)
    requires s < 32
  {
    if s == 0 then 0 else (x * Pow2(32 - s)) % LIMB
  }

  function Kept(x: Limb, s: nat): (r: Limb)
  {
    QuotientBound(x, Pow2(s));
    x / Pow2(s)
  }

  lemma RightParts(x: Limb, s: nat, p: nat)
    requires s < 32 && p < Pow2(32 - s)
    ensures Or(p, Carried(x, s)) == p + Carried(x, s) < LIMB
    ensures Or(0, Kept(x, s)) == Kept(x, s) < Pow2(32 - s)
    ensures s > 0 ==> Mul(x, Pow2(32 - s)) == Carried(x, s) + LIMB * Kept(x, s)
    ensures s == 0 ==> Kept(x, s) == x && Carried(x, s) == 0
  {
    hide Or;
    OrCommutes(0, Kept(x, s));
    OrZero(Kept(x, s));
    OrCommutes(p, Carried(x, s));
    ShiftSplit(x, 32 - s);
    if s == 0 {
      Pow2Limb();
      OrZero(p);
    } else {
      ModUnique(Carried(x, s), x % Pow2(s), 0, Pow2(32 - s));
      OrDisjoint(Carried(x, s), p, 32 - s);
    }
  }

  lemma RightNext(r: seq<Limb>, a: seq<Limb>, k: nat, s: nat, i: nat)
    requires RightAt(r, a, k, s, i) && i < |a|
    ensures Or(0, Kept(a[i], s)) == Kept(a[i], s)
    ensures i > k ==> Or(r[i - k - 1], Carried(a[i], s)) < LIMB
    ensures var r1 := if i > k then r[i - k - 1 := Or(r[i - k - 1], Carried(a[i], s))] else r;
            RightAt(r1[i - k := Kept(a[i], s)], a, k, s, i + 1)
  {
    hide Value, Pow2, Mul, Kept, Carried, Or;
    var n, x := i - k, a[i];
    RightParts(x, s, if n > 0 then r[n - 1] else 0);
    var r1 := if n > 0 then r[n - 1 := Or(r[n - 1], Carried(x, s))] else r;
    RightValue(r, r1[n := Kept(x, s)], a, k, s, i);
  }

  /** The limb kept and the bits carried down make up the shifted value. */
  lemma RightValue(r: seq<Limb>, r': seq<Limb>, a: seq<Limb>, k: nat, s: nat, i: nat)
    requires k <= i < |a| == |r| == |r'| && s < 32 && r'[i - k] == Kept(a[i], s)
    requires i > k ==> r[i - k - 1] < Pow2(32 - s) && r'[i - k - 1] == r[i - k - 1] + Carried(a[i], s)
    requires i > k ==> r'[..i - k - 1] == r[..i - k - 1]
    requires Value(r[..i - k]) == Value(a[k..i]) / Pow2(s)
    ensures Value(r'[..i + 1 - k]) == Value(a[k..i + 1]) / Pow2(s)
  {
    hide Value, Pow2, Mul, Kept, Carried, Or, Base;
    var n, x := i - k, a[i];
    ValueEnd(a, k, i);
    ValueSnoc(r', n);
    if n > 0 {
      ValueSnoc(r', n - 1);
      ValueSnoc(r, n - 1);
      RightParts(x, s, r[n - 1]);
      Pow2Limb();
      Pow2Add(s, 32 - s);
      BaseStep(n);
      RightStep(Base(n - 1), Pow2(s), Pow2(32 - s), Value(a[k..i]), x, Carried(x, s), Kept(x, s), r[n - 1], s);
    } else {
      FirstLimb(x, s, r'[..0], a[k..i]);
    }
  }

  lemma ValueEnd(a: seq<Limb>, k: nat, i: nat)
    requires k <= i < |a|
    ensures Value(a[k..i + 1]) == Value(a[k..i]) + Mul(Base(i - k), a[i])
  {
    hide Mul;
    ValueSnoc(a[k..], i - k);
    assert a[k..][..i - k] == a[k..i] && a[k..][..i - k + 1] == a[k..i + 1];
  }

  lemma BaseStep(n: nat)
    requires n > 0
    ensures Base(n) == LIMB * Base(n - 1)
  {
  }

  lemma FirstLimb(x: Limb, s: nat, none: seq<Limb>, nothing: seq<Limb>)
    requires none == nothing == []
    ensures Value(none) + Mul(Base(0), Kept(x, s)) == (Value(nothing) + Mul(Base(0), x)) / Pow2(s)
  {
  }

  lemma RightStep(b: nat, t: nat, u: nat, v: nat, x: nat, carried: nat, kept: nat, p: nat, s: nat)
    requires s < 32 && t == Pow2(s) && u == Pow2(32 - s) && t * u == LIMB
    requires s > 0 ==> Mul(x, u) == carried + LIMB * kept
    requires s == 0 ==> kept == x && carried == 0
    ensures v / t + Mul(b, p + carried) - Mul(b, p) + Mul(LIMB * b, kept) == (v + Mul(LIMB * b, x)) / t
  {
    assert b * (p + carried) - b * p == b * carried;
    if s == 0 {
      assert t == 1;
    } else {
      assert b * carried + (LIMB * b) * kept == b * (carried + LIMB * kept);
      BitsMoved(b, t, u, v, x);
    }
  }

  lemma BitsMoved(b: nat, t: nat, u: nat, v: nat, x: nat)
    requires t > 0 && t * u == LIMB
    ensures v / t + b * (x * u) == (v + (LIMB * b) * x) / t
  {
    var z := b * (x * u);
    assert ((t * u) * b) * x == z * t;
    var q, m := v / t, v % t;
    assert v == q * t + m;
    assert v + z * t == (q + z) * t + m;
    ModUnique(v + z * t, q + z, m, t);
  }

  lemma RightEnd(r: seq<Limb>, a: seq<Limb>, k: nat, s: nat)
    requires RightAt(r, a, k, s, |a|)
    ensures Value(r) == Value(a) / Pow2(32 * k + s)
  {
    hide Mul;
    var n := |a| - k;
    ValueSplit(r, n);
    ValueZero(r[n..]);
    ValueSplit(a, k);
    ValueBound(a[..k]);
    Pow2Add(32 * k, s);
    BaseIsPow2(k);
    assert a[k..|a|] == a[k..];
    RightRest(Base(n), Base(k), Pow2(s), Value(a[..k]), Value(a[k..]));
  }

  lemma RightRest(bn: nat, bk: nat, t: nat, low: nat, high: nat)
    requires t > 0 && low < bk
    ensures Mul(bn, 0) == 0
    ensures (low + Mul(bk, high)) / (bk * t) == high / t
  {
    var q, m := high / t, high % t;
    assert high == q * t + m;
    assert low + bk * high == q * (bk * t) + (bk * m + low);
    MulMonotonic(m + 1, t, bk);
    assert (m + 1) * bk == bk * m + bk && t * bk == bk * t;
    ModUnique(low + bk * high, q, bk * m + low, bk * t);
  }

  lemma RightAway(a: nat, width: nat, shift: nat)
    requires shift >= 32 * width && a < Base(width)
    ensures a / Pow2(shift) == 0
  {
    BaseIsPow2(width);
    Pow2Monotonic(32 * width, shift);
    ModUnique(a, 0, a, Pow2(shift));
  }
}
