/** Little-endian limb sequences and the numbers they stand for. */
module Limbs {
  import opened Common

  const LIMB: nat := 0x1_0000_0000
  type Limb = x: int | 0 <= x < LIMB

  function Pow2(n: nat): (p: nat)
    ensures p > 0
  {
    if n == 0 then 1 else 2 * Pow2(n - 1)
  }

  /** Bit p of a number. */
  predicate TestBit(x: nat, p: nat) {
    if p == 0 then x % 2 == 1 else TestBit(x / 2, p - 1)
  }

  lemma {:induction false} Pow2Add(a: nat, b: nat)
    ensures Pow2(a + b) == Pow2(a) * Pow2(b)
  {
    if a > 0 {
      Pow2Add(a - 1, b);
      MulAssociative(2, Pow2(a - 1), Pow2(b));
    }
  }

  lemma Pow2Monotonic(a: nat, b: nat)
    requires a <= b
    ensures Pow2(a) <= Pow2(b)
    decreases b
  {
    if a < b { Pow2Monotonic(a, b - 1); }
  }

  lemma Pow2Limb()
    ensures Pow2(32) == LIMB
  {
    assert Pow2(8) == 256;
    Pow2Add(8, 8);
    Pow2Add(16, 16);
  }

  /** 2 to the 32n. */
  function Base(n: nat): (p: nat)
    ensures p > 0
  {
    if n == 0 then 1 else LIMB * Base(n - 1)
  }

  lemma {:induction false} BaseAdd(a: nat, b: nat)
    ensures Base(a + b) == Mul(Base(a), Base(b))
  {
    if a > 0 {
      BaseAdd(a - 1, b);
      MulAssociative(LIMB, Base(a - 1), Base(b));
    }
  }

  lemma {:induction false} BaseIsPow2(n: nat)
    ensures Base(n) == Pow2(32 * n)
  {
    if n > 0 {
      BaseIsPow2(n - 1);
      Pow2Limb();
      Pow2Add(32, 32 * (n - 1));
    }
  }

  function Value(s: seq<Limb>): nat {
    if s == [] then 0 else s[0] + LIMB * Value(s[1..])
  }

  lemma {:induction false} ValueConcat(s: seq<Limb>, t: seq<Limb>)
    ensures Value(s + t) == Value(s) + Mul(Base(|s|), Value(t))
  {
    if s == [] {
      assert s + t == t;
    } else {
      hide Mul;
      ValueConcat(s[1..], t);
      assert (s + t)[1..] == s[1..] + t;
      LimbMul(Base(|s| - 1), Value(t));
    }
  }

  lemma LimbMul(a: int, b: int)
    ensures Mul(LIMB * a, b) == LIMB * Mul(a, b)
    ensures Mul(a, LIMB * b) == LIMB * Mul(a, b)
  {
    MulAssociative(LIMB, a, b);
  }

  lemma {:induction false} ValueSplit(s: seq<Limb>, i: nat)
    requires i <= |s|
    ensures Value(s) == Value(s[..i]) + Mul(Base(i), Value(s[i..]))
  {
    hide Mul, Value, Base;
    ValueConcat(s[..i], s[i..]);
    assert s == s[..i] + s[i..];
  }

  lemma {:induction false} ValueSnoc(s: seq<Limb>, i: nat)
    requires i < |s|
    ensures Value(s[..i + 1]) == Value(s[..i]) + Mul(Base(i), s[i])
  {
    hide Mul;
    ValueConcat(s[..i], [s[i]]);
    assert s[..i + 1] == s[..i] + [s[i]];
    assert Value([s[i]]) == s[i];
  }

  lemma {:induction false} ValueBound(s: seq<Limb>)
    ensures Value(s) < Base(|s|)
  {
    if s != [] {
      ValueBound(s[1..]);
      var v, b := Value(s[1..]), Base(|s| - 1);
      assert LIMB * (v + 1) <= LIMB * b;
    }
  }

  lemma {:induction false} ValueZero(s: seq<Limb>)
    ensures Value(s) == 0 <==> forall i :: 0 <= i < |s| ==> s[i] == 0
  {
    if s != [] {
      ValueZero(s[1..]);
      if Value(s) == 0 {
        assert forall i :: 1 <= i < |s| ==> s[i] == s[1..][i - 1];
      }
    }
  }

  lemma ValueLow(s: seq<Limb>)
    requires |s| >= 2 && forall i :: 2 <= i < |s| ==> s[i] == 0
    ensures Value(s) == s[0] + LIMB * s[1]
  {
    ValueZero(s[1..][1..]);
  }

  /** A sum below the modulus plus a multiple of it determines the remainder. */
  lemma ModUnique(x: int, q: int, r: int, m: int)
    requires x == q * m + r && 0 <= r < m
    ensures x % m == r && x / m == q
  {
    var q', r' := x / m, x % m;
    assert x == q' * m + r';
    assert (q' - q) * m == q' * m - q * m == r - r';
    SmallMultiple(q' - q, m);
  }

  lemma SmallMultiple(k: int, m: int)
    requires -m < k * m < m
    ensures k == 0
  {
    if k >= 1 { MulMonotonic(1, k, m); }
  }

  // ---- bitwise or ----

  function Or(a: nat, b: nat): nat {
    if a == 0 && b == 0 then 0
    else (if a % 2 == 1 || b % 2 == 1 then 1 else 0) + 2 * Or(a / 2, b / 2)
  }

  /** Bits that do not overlap add up. */
  lemma {:induction false} OrDisjoint(a: nat, b: nat, s: nat)
    requires a % Pow2(s) == 0 && b < Pow2(s)
    ensures Or(a, b) == a + b
    decreases s
  {
    if s == 0 {
      OrZero(a);
    } else if a != 0 || b != 0 {
      var p := Pow2(s - 1);
      var k := a / (2 * p);
      assert a == k * (2 * p);
      assert a == 2 * (k * p);
      assert a / 2 == k * p;
      ModUnique(a / 2, k, 0, p);
      OrDisjoint(a / 2, b / 2, s - 1);
    }
  }

  lemma {:induction false} OrZero(a: nat)
    ensures Or(a, 0) == a
  {
    if a != 0 { OrZero(a / 2); }
  }

  lemma {:induction false} OrCommutes(a: nat, b: nat)
    ensures Or(a, b) == Or(b, a)
  {
    if a != 0 || b != 0 { OrCommutes(a / 2, b / 2); }
  }

  // ---- bitwise and ----

  function And(a: nat, b: nat): nat {
    if a == 0 || b == 0 then 0
    else (if a % 2 == 1 && b % 2 == 1 then 1 else 0) + 2 * And(a / 2, b / 2)
  }

  lemma {:induction false} AndBound(a: nat, b: nat)
    ensures And(a, b) <= b
  {
    if a != 0 && b != 0 { AndBound(a / 2, b / 2); }
  }

  lemma {:induction false} AndSelf(a: nat)
    ensures And(a, a) == a
  {
    if a != 0 { AndSelf(a / 2); }
  }
}
