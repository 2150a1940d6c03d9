/** Numbers written most significant digit first, in any base. */
module Radix {
  import opened Common
  import opened Limbs

  function Pow(b: nat, n: nat): nat {
    if n == 0 then 1 else b * Pow(b, n - 1)
  }

  lemma {:induction false} PowPositive(b: nat, n: nat)
    requires b > 0
    ensures Pow(b, n) > 0
  {
    if n > 0 {
      PowPositive(b, n - 1);
      MulMonotonic(1, b, Pow(b, n - 1));
    }
  }

  lemma {:induction false} PowAdd(b: nat, m: nat, n: nat)
    ensures Pow(b, m + n) == Pow(b, m) * Pow(b, n)
  {
    if m > 0 {
      PowAdd(b, m - 1, n);
      MulAssociative(b, Pow(b, m - 1), Pow(b, n));
    }
  }

  lemma {:induction false} PowMul(b: nat, m: nat, n: nat)
    ensures Pow(Pow(b, m), n) == Pow(b, Mul(m, n))
    decreases n
  {
    if n > 0 {
      PowMul(b, m, n - 1);
      assert Mul(m, n) == m + Mul(m, n - 1);
      PowAdd(b, m, Mul(m, n - 1));
    }
  }

  lemma {:induction false} PowMonotonic(a: nat, b: nat, n: nat)
    requires a <= b
    ensures Pow(a, n) <= Pow(b, n)
  {
    if n > 0 {
      PowMonotonic(a, b, n - 1);
      MulMonotonic(a, b, Pow(a, n - 1));
      MulMonotonic(Pow(a, n - 1), Pow(b, n - 1), b);
    }
  }

  lemma {:induction false} PowExponent(b: nat, m: nat, n: nat)
    requires b > 0 && m <= n
    ensures Pow(b, m) <= Pow(b, n)
    decreases n
  {
    if m < n {
      PowExponent(b, m, n - 1);
      MulMonotonic(1, b, Pow(b, n - 1));
    }
  }

  /** Powers of a larger number are larger. */
  lemma {:induction false} PowStrict(a: nat, b: nat, n: nat)
    requires a < b && n > 0
    ensures Pow(a, n) < Pow(b, n)
  {
    PowMonotonic(a, b, n - 1);
    PowPositive(b, n - 1);
    MulMonotonic(Pow(a, n - 1), Pow(b, n - 1), a);
    MulMonotonic(a + 1, b, Pow(b, n - 1));
    assert (a + 1) * Pow(b, n - 1) == a * Pow(b, n - 1) + Pow(b, n - 1);
  }

  /** From a^q <= b^p, any n digits of base a fit m digits of base b once p n <= q m. */
  lemma RootBound(a: nat, b: nat, p: nat, q: nat, n: nat, m: nat)
    requires b > 0 && q > 0 && Pow(a, q) <= Pow(b, p) && Mul(p, n) <= Mul(q, m)
    ensures Pow(a, n) <= Pow(b, m)
  {
    hide Pow, Mul;
    MulCommutes(q, n);
    MulCommutes(q, m);
    PowMul(a, n, q);
    PowMul(a, q, n);
    PowMonotonic(Pow(a, q), Pow(b, p), n);
    PowMul(b, p, n);
    MulNonNegative(p, n);
    PowExponent(b, Mul(p, n), Mul(q, m));
    PowMul(b, m, q);
    if Pow(a, n) > Pow(b, m) { PowStrict(Pow(b, m), Pow(a, n), q); }
  }

  lemma MulCommutes(a: int, b: int)
    ensures Mul(a, b) == Mul(b, a)
  {
  }

  lemma MulNonNegative(a: nat, b: nat)
    ensures Mul(a, b) >= 0
  {
  }

  // ---- digit sequences ----

  ghost predicate Digits(s: seq<nat>, b: nat) {
    forall i :: 0 <= i < |s| ==> s[i] < b
  }

  ghost function Num(s: seq<nat>, b: nat): int {
    if s == [] then 0 else Mul(s[0], Pow(b, |s| - 1)) + Num(s[1..], b)
  }

  lemma {:induction false} NumBound(s: seq<nat>, b: nat)
    requires b > 0 && Digits(s, b)
    ensures 0 <= Num(s, b) < Pow(b, |s|)
  {
    if s != [] {
      NumBound(s[1..], b);
      var p := Pow(b, |s| - 1);
      MulMonotonic(s[0] + 1, b, p);
      assert (s[0] + 1) * p == s[0] * p + p;
      MulMonotonic(0, s[0], p);
    }
  }

  lemma {:induction false} NumConcat(s: seq<nat>, t: seq<nat>, b: nat)
    ensures Num(s + t, b) == Mul(Num(s, b), Pow(b, |t|)) + Num(t, b)
  {
    if s == [] {
      assert s + t == t;
    } else {
      NumConcat(s[1..], t, b);
      assert (s + t)[1..] == s[1..] + t;
      PowAdd(b, |s| - 1, |t|);
      Distribute(s[0], Pow(b, |s| - 1), Pow(b, |t|), Num(s[1..], b));
    }
  }

  lemma Distribute(d: int, p: int, q: int, n: int)
    ensures Mul(d, p * q) + Mul(n, q) == Mul(Mul(d, p) + n, q)
  {
    assert (d * p + n) * q == (d * p) * q + n * q;
    MulAssociative(d, p, q);
  }

  lemma NumSnoc(s: seq<nat>, i: nat, b: nat)
    requires i < |s|
    ensures Num(s[..i + 1], b) == b * Num(s[..i], b) + s[i]
  {
    NumConcat(s[..i], [s[i]], b);
    assert s[..i + 1] == s[..i] + [s[i]];
    assert Pow(b, 0) == 1 && Pow(b, 1) == b;
    assert Num([s[i]], b) == s[i];
  }

  /** Same length and same number: same digits. */
  lemma {:induction false} NumInjective(s: seq<nat>, t: seq<nat>, b: nat)
    requires b > 0 && Digits(s, b) && Digits(t, b) && |s| == |t| && Num(s, b) == Num(t, b)
    ensures s == t
  {
    if s != [] {
      var p := Pow(b, |s| - 1);
      NumBound(s[1..], b);
      NumBound(t[1..], b);
      ModUnique(Num(s, b), s[0], Num(s[1..], b), p);
      ModUnique(Num(t, b), t[0], Num(t[1..], b), p);
      NumInjective(s[1..], t[1..], b);
      assert s == [s[0]] + s[1..] && t == [t[0]] + t[1..];
    }
  }

  // ---- leading zeros ----

  function LeadingZeros(s: seq<nat>): (z: nat)
    ensures z <= |s|
    ensures forall i :: 0 <= i < z ==> s[i] == 0
    ensures z < |s| ==> s[z] != 0
  {
    if s == [] || s[0] != 0 then 0 else 1 + LeadingZeros(s[1..])
  }

  lemma {:induction false} ZerosNum(s: seq<nat>, z: nat, b: nat)
    requires z <= |s| && forall i :: 0 <= i < z ==> s[i] == 0
    ensures Num(s[z..], b) == Num(s, b)
  {
    if z > 0 {
      ZerosNum(s[1..], z - 1, b);
      assert s[1..][z - 1..] == s[z..];
    } else {
      assert s[0..] == s;
    }
  }

  /** The two sequences write the same number with equally many leading zeros. */
  ghost predicate Recoded(x: seq<nat>, bx: nat, y: seq<nat>, by_: nat) {
    && Digits(x, bx) && Digits(y, by_)
    && LeadingZeros(x) == LeadingZeros(y)
    && Num(x, bx) == Num(y, by_)
  }

  lemma CanonicalLength(s: seq<nat>, b: nat)
    requires b > 1 && Digits(s, b) && s != [] && s[0] != 0
    ensures 0 < Pow(b, |s| - 1) <= Num(s, b) < Pow(b, |s|)
  {
    PowPositive(b, |s| - 1);
    NumBound(s, b);
    NumBound(s[1..], b);
    MulMonotonic(1, s[0], Pow(b, |s| - 1));
  }

  /** Nothing else writes the same number with as many leading zeros, so recoding
      there and back is the identity. */
  lemma RecodedInverse(x: seq<nat>, b: nat, y: seq<nat>, c: nat, z: seq<nat>)
    requires b > 1 && Recoded(x, b, y, c) && Recoded(y, c, z, b)
    ensures x == z
  {
    var k := LeadingZeros(x);
    ZerosNum(x, k, b);
    ZerosNum(z, k, b);
    var s, t := x[k..], z[k..];
    assert Digits(s, b) && Digits(t, b);
    if s == [] {
      if t != [] { CanonicalLength(t, b); }
    } else if t == [] {
      CanonicalLength(s, b);
    } else {
      CanonicalLength(s, b);
      CanonicalLength(t, b);
      if |s| < |t| { PowExponent(b, |s|, |t| - 1); }
      if |t| < |s| { PowExponent(b, |t|, |s| - 1); }
      NumInjective(s, t, b);
    }
    assert x[..k] == z[..k];
    assert x == x[..k] + s && z == z[..k] + t;
  }

  // ---- multiply and add in place ----

  /** The digits from j on have been multiplied by f, with x added; carry is due
      at digit j - 1. */
  ghost predicate MulAddAt(a: seq<nat>, r: seq<nat>, b: nat, f: nat, x: nat, j: nat, carry: nat) {
    && j <= |a| == |r| && Digits(r, b) && Digits(a, b)
    && r[..j] == a[..j]
    && Num(r[j..], b) + Mul(carry, Pow(b, |a| - j)) == Mul(f, Num(a[j..], b)) + x
  }

  lemma MulAddStart(a: seq<nat>, b: nat, f: nat, x: nat)
    requires Digits(a, b)
    ensures MulAddAt(a, a, b, f, x, |a|, x)
  {
    assert a[|a|..] == [];
    assert Pow(b, 0) == 1;
  }

  lemma MulAddNext(a: seq<nat>, r: seq<nat>, b: nat, f: nat, x: nat, j: nat, carry: nat, c: nat)
    requires b > 0 && MulAddAt(a, r, b, f, x, j, carry) && j > 0 && c == carry + Mul(f, r[j - 1])
    ensures c / b >= 0 && MulAddAt(a, r[j - 1 := c % b], b, f, x, j - 1, c / b)
  {
    hide Mul, Pow;
    QuotientBound(c, b);
    var r' := r[j - 1 := c % b];
    assert r[j - 1] == a[j - 1] by { assert r[..j][j - 1] == a[..j][j - 1]; }
    assert r'[..j - 1] == a[..j - 1] by { assert r'[..j - 1] == r[..j][..j - 1]; }
    assert r'[j - 1..][1..] == r[j..] && a[j - 1..][1..] == a[j..];
    PowStep(b, |a| - j);
    MulAddDigit(carry, a[j - 1], f, b, Pow(b, |a| - j), c, Num(a[j..], b));
  }

  lemma PowStep(b: nat, n: nat)
    ensures Pow(b, n + 1) == Mul(b, Pow(b, n))
  {
  }

  lemma MulAddDigit(carry: nat, d: nat, f: nat, b: nat, p: nat, c: nat, n: int)
    requires b > 0 && c == carry + Mul(f, d)
    ensures Mul(c % b, p) + Mul(c / b, Mul(b, p)) + Mul(f, n) == Mul(carry, p) + Mul(f, Mul(d, p) + n)
  {
    var q, r := c / b, c % b;
    assert c == q * b + r;
    assert r * p + q * (b * p) == (q * b + r) * p;
    assert (carry + f * d) * p == carry * p + f * (d * p);
    assert f * (d * p + n) == f * (d * p) + f * n;
  }

  /** Nothing is carried out when the result fits, and digits that need no
      change need not be visited. */
  lemma MulAddEnd(a: seq<nat>, r: seq<nat>, b: nat, f: nat, x: nat, j: nat, carry: nat)
    requires b > 0 && MulAddAt(a, r, b, f, x, j, carry)
    requires Mul(f, Num(a, b)) + x < Pow(b, |a|)
    requires j == 0 || (carry == 0 && forall i :: 0 <= i < j ==> a[i] == 0)
    ensures carry == 0 && Num(r, b) == Mul(f, Num(a, b)) + x
  {
    hide Mul, Pow, Num;
    NumBound(r, b);
    CarryOut(carry, Pow(b, |a| - j));
    if j == 0 {
      assert r[0..] == r && a[0..] == a;
    } else {
      ZerosNum(a, j, b);
      forall i | 0 <= i < j ensures r[i] == 0 {
        assert r[i] == r[..j][i] == a[..j][i];
      }
      ZerosNum(r, j, b);
    }
  }

  lemma CarryOut(carry: nat, p: nat)
    ensures carry == 0 ==> Mul(carry, p) == 0
    ensures carry > 0 ==> Mul(carry, p) >= p
  {
    if carry > 0 { MulMonotonic(1, carry, p); }
  }
}
