/** Fixed-width unsigned integers as limb arrays updated in place (base_uint,
    src/arith_uint256.h and src/arith_uint256.cpp), for every width. A 32-bit
    or 64-bit truncation in the program is written out as a remainder. */
module BaseUint {
  import opened Common
  import opened Limbs
  import opened UintShift

  class Uint {
    const pn: array<Limb>

    /** The number held. */
    ghost function Val(): nat
      reads pn
    {
      Value(pn[..])
    }

    /** One more than the largest number representable. */
    ghost function Modulus(): (m: nat)
      ensures m > 0
    {
      Base(pn.Length)
    }

    lemma InRange()
      ensures Val() < Modulus()
    {
      ValueBound(pn[..]);
    }

    constructor (width: nat)
      ensures pn.Length == width && fresh(pn) && Val() == 0
    {
      pn := new Limb[width](i => 0);
      new;
      ValueZero(pn[..]);
    }

    constructor Copy(b: Uint)
      ensures pn.Length == b.pn.Length && fresh(pn) && pn[..] == b.pn[..]
    {
      pn := new Limb[b.pn.Length](i requires 0 <= i < b.pn.Length reads b.pn => b.pn[i]);
    }

    /** operator=(uint64_t): the two low limbs, the rest cleared. */
    method AssignWord(w: nat)
      requires w < U64 && pn.Length >= 2
      modifies pn
      ensures Val() == w
    {
      pn[0], pn[1] := w % LIMB, w / LIMB;
      for i := 2 to pn.Length
        invariant pn[0] == w % LIMB && pn[1] == w / LIMB
        invariant forall k :: 2 <= k < i ==> pn[k] == 0
      {
        pn[i] := 0;
      }
      ValueLow(pn[..]);
    }

    method Clear()
      modifies pn
      ensures forall k :: 0 <= k < pn.Length ==> pn[k] == 0
    {
      for i := 0 to pn.Length
        invariant forall k :: 0 <= k < i ==> pn[k] == 0
      {
        pn[i] := 0;
      }
    }

    /** operator+=: addition modulo the width. */
    method Add(b: Uint)
      requires b.pn.Length == pn.Length
      modifies pn
      ensures Val() == (old(Val()) + old(b.Val())) % Modulus()
    {
      hide Mul;
      ghost var x, y := pn[..], b.pn[..];
      var carry := 0;
      MulBasics(1);
      for i := 0 to pn.Length
        invariant 0 <= carry <= 1
        invariant pn[i..] == x[i..] && (b.pn != pn ==> b.pn[..] == y) && (b.pn == pn ==> x == y)
        invariant Value(pn[..i]) + Mul(Base(i), carry) == Value(x[..i]) + Value(y[..i])
      {
        assert pn[i] == x[i] && b.pn[i] == y[i] by { assert pn[i..][0] == x[i..][0]; }
        var n := carry + pn[i] + b.pn[i];
        assert n < U64;
        ghost var before := pn[..i];
        pn[i] := n % LIMB;
        AddStep(Base(i), carry, x[i], y[i], n % LIMB, n / LIMB);
        carry := n / LIMB;
        assert pn[..i] == before;
        ValueSnoc(pn[..], i);
        ValueSnoc(x, i);
        ValueSnoc(y, i);
        assert pn[..][..i] == pn[..i] && pn[..][..i + 1] == pn[..i + 1];
      }
      assert pn[..pn.Length] == pn[..] && x[..pn.Length] == x && y[..pn.Length] == y;
      InRange();
      MulUnique(Value(x) + Value(y), carry, Val(), Modulus());
    }

    /** operator~. */
    method Complement() returns (r: Uint)
      ensures fresh(r) && fresh(r.pn) && r.pn.Length == pn.Length
      ensures r.Val() == Modulus() - 1 - Val()
    {
      hide Mul;
      r := new Uint(pn.Length);
      for i := 0 to pn.Length
        invariant pn[..] == old(pn[..])
        invariant Value(r.pn[..i]) + Value(pn[..i]) == Base(i) - 1
      {
        ghost var before := r.pn[..i];
        r.pn[i] := LIMB - 1 - pn[i];
        assert r.pn[..i] == before;
        ValueSnoc(r.pn[..], i);
        ValueSnoc(pn[..], i);
        assert r.pn[..][..i] == r.pn[..i] && pn[..][..i] == pn[..i];
        assert r.pn[..][..i + 1] == r.pn[..i + 1] && pn[..][..i + 1] == pn[..i + 1];
        ComplementStep(Base(i), pn[i]);
      }
      assert r.pn[..pn.Length] == r.pn[..] && pn[..pn.Length] == pn[..];
    }

    /** operator++: the carry runs through limbs that wrap to zero. */
    method Increment()
      requires pn.Length >= 1
      modifies pn
      ensures Val() == (old(Val()) + 1) % Modulus()
    {
      hide Mul, Value, Base;
      ghost var x := pn[..];
      var i := 0;
      var carry := 1;
      IncrementStart(x, pn[..0]);
      while i < pn.Length && carry == 1
        invariant 0 <= i <= pn.Length && 0 <= carry <= 1
        invariant pn[i..] == x[i..]
        invariant Value(pn[..i]) + Mul(Base(i), carry) == Value(x[..i]) + 1
        decreases pn.Length - i
      {
        assert pn[i] == x[i] by { assert pn[i..][0] == x[i..][0]; }
        ghost var before := pn[..i];
        pn[i] := (pn[i] + 1) % LIMB;
        carry := if pn[i] == 0 then 1 else 0;
        assert pn[..][..i] == pn[..i] == before && pn[..][..i + 1] == pn[..i + 1];
        IncrementNext(x, pn[..], i, carry);
        i := i + 1;
      }
      ValueSplit(pn[..], i);
      ValueSplit(x, i);
      assert pn[..][..i] == pn[..i] && pn[..][i..] == pn[i..];
      InRange();
      MulBasics(Base(i));
      MulBasics(Modulus());
      MulUnique(Value(x) + 1, carry, Val(), Modulus());
    }

    /** Unary minus: complement and increment. */
    method Negated() returns (r: Uint)
      requires pn.Length >= 1
      ensures fresh(r) && fresh(r.pn) && r.pn.Length == pn.Length && r.Modulus() == Modulus()
      ensures r.Val() == (Modulus() - Val()) % Modulus()
    {
      r := Complement();
      r.Increment();
    }

    /** operator-=: adds the negation. */
    method Subtract(b: Uint)
      requires pn.Length >= 1 && b.pn.Length == pn.Length
      modifies pn
      ensures Val() == (old(Val()) - old(b.Val())) % Modulus()
    {
      hide Value, Base;
      InRange();
      b.InRange();
      ghost var x, y, m := Val(), b.Val(), Modulus();
      var minus := b.Negated();
      Add(minus);
      assert Val() == (x + (m - y) % m) % m;
      SubtractMod(x, y, m);
    }

    /** operator*=: schoolbook multiplication modulo the width, with a 64-bit
        accumulator that never overflows. The product is correct when the
        factor is another object; multiplying an object by itself in place
        reads the factor after it has been cleared and gives zero. */
    method Multiply(b: Uint)
      requires b.pn.Length == pn.Length && (b == this || b.pn != pn)
      modifies pn
      ensures b != this ==> Val() == (old(Val()) * b.Val()) % Modulus()
      ensures b == this ==> Val() == 0
    {
      var a := new Uint.Copy(this);
      ghost var x, y := pn[..], b.pn[..];
      Clear();
      ValueZero(pn[..]);
      hide Value, Base, Product;
      ProductStart(pn[..], x, y);
      for j := 0 to pn.Length
        invariant a.pn[..] == x
        invariant b == this ==> Val() == 0
        invariant b != this ==> b.pn[..] == y && Product(pn[..], x, y, j)
      {
        ghost var before := pn[..];
        MultiplyRow(a, b, j);
        if b != this {
          ProductNext(before, pn[..], x, y, j);
        }
      }
      if b != this {
        ProductEnd(pn[..], x, y);
      }
    }

    /** Adds a[j] times b, shifted by j limbs; multiples of the modulus drop out. */
    method MultiplyRow(a: Uint, b: Uint, j: nat)
      requires a.pn.Length == b.pn.Length == pn.Length && j < pn.Length
      requires a.pn != pn && (b == this || b.pn != pn)
      requires b == this ==> Val() == 0
      modifies pn
      ensures b == this ==> Val() == 0
      ensures b != this ==> RowAdded(old(pn[..]), pn[..], a.pn[j], b.pn[..], j)
    {
      ghost var p, y := pn[..], b.pn[..];
      ValueZero(pn[..]);
      hide Value, Base, RowAt, RowAdded, Accumulate;
      RowStart(p, y, a.pn[j], j);
      var carry := 0;
      var i := 0;
      while i + j < pn.Length
        invariant 0 <= i <= pn.Length - j && 0 <= carry < LIMB
        invariant a.pn[..] == old(a.pn[..])
        invariant b == this ==> carry == 0 && pn[..] == p
        invariant b != this ==> b.pn[..] == y && RowAt(pn[..], p, y, a.pn[j], i, j, carry)
      {
        var n := Accumulate(carry, pn[i + j], a.pn[j], b.pn[i]);
        if b != this { RowNext(pn[..], p, y, a.pn[j], i, j, carry); } else { AccumulateZero(p, a.pn[j], i, i + j); }
        ghost var before := pn[..];
        var low: Limb := n % LIMB;
        pn[i + j] := low;
        carry := n / LIMB;
        assert pn[..] == before[i + j := low];
        i := i + 1;
      }
      if b != this { RowEnd(pn[..], p, y, a.pn[j], i, j, carry); }
    }

    /** operator<<=: multiplication by a power of two modulo the width. */
    method ShiftLeft(shift: nat)
      modifies pn
      ensures Val() == (old(Val()) * Pow2(shift)) % Modulus()
    {
      var a := new Uint.Copy(this);
      ghost var x := pn[..];
      Clear();
      var k, s := shift / 32, shift % 32;
      ghost var c := 0;
      ghost var limit := if k <= pn.Length then pn.Length - k else 0;
      if k <= pn.Length { LeftStart(pn[..], x, k, s); }
      hide Value, Base, LeftAt, Low, High, Or, Pow2;
      for i := 0 to pn.Length
        invariant a.pn[..] == x
        invariant k <= pn.Length ==> LeftAt(pn[..], x, k, s, if i <= limit then i else limit, c)
        invariant k > pn.Length ==> forall m :: 0 <= m < pn.Length ==> pn[m] == 0
      {
        if i + k < pn.Length {
          LeftShape(pn[..], x, k, s, i, c);
          LeftNext(pn[..], x, k, s, i, c);
          ghost var before := pn[..];
          if i + k + 1 < pn.Length {
            var high: Limb := High(a.pn[i], s);
            pn[i + k + 1] := Or(pn[i + k + 1], high);
            assert pn[..] == before[i + k + 1 := high];
          }
          var low: Limb := Or(pn[i + k], Low(a.pn[i], s));
          ghost var between := pn[..];
          pn[i + k] := low;
          assert pn[..] == between[i + k := low];
          c := High(x[i], s);
        }
      }
      ShiftEnd(pn[..], x, k, s, c, shift);
    }

    /** operator>>=: division by a power of two. */
    method ShiftRight(shift: nat)
      modifies pn
      ensures Val() == old(Val()) / Pow2(shift)
    {
      var a := new Uint.Copy(this);
      ghost var x := pn[..];
      Clear();
      var k, s := shift / 32, shift % 32;
      if k <= pn.Length { RightStart(pn[..], x, k, s); }
      hide Value, Base, RightAt, Kept, Carried, Or, Pow2;
      for i := 0 to pn.Length
        invariant a.pn[..] == x
        invariant k <= i ==> RightAt(pn[..], x, k, s, i)
        invariant i < k <= pn.Length ==> RightAt(pn[..], x, k, s, k)
        invariant k > i ==> forall m :: 0 <= m < pn.Length ==> pn[m] == 0
      {
        if i >= k {
          RightShape(pn[..], x, k, s, i);
          RightNext(pn[..], x, k, s, i);
          ghost var before := pn[..];
          if i > k {
            var moved: Limb := Or(pn[i - k - 1], Carried(a.pn[i], s));
            pn[i - k - 1] := moved;
            assert pn[..] == before[i - k - 1 := moved];
          }
          ghost var between := pn[..];
          var kept: Limb := Kept(a.pn[i], s);
          pn[i - k] := Or(pn[i - k], kept);
          assert pn[..] == between[i - k := kept];
        }
      }
      ShiftRightEnd(pn[..], x, k, s, shift);
    }
  }

  lemma MulBasics(a: int)
    ensures Mul(a, 0) == 0 && Mul(a, 1) == a
  {
  }

  lemma MulUnique(x: int, q: int, r: int, m: int)
    requires x == r + Mul(m, q) && 0 <= r < m
    ensures x % m == r && x / m == q
  {
    ModUnique(x, q, r, m);
  }

  lemma ComplementStep(base: nat, x: nat)
    ensures Mul(base, LIMB - 1 - x) + Mul(base, x) == LIMB * base - base
  {
    assert base * (LIMB - 1 - x) + base * x == base * (LIMB - 1);
  }

  /** A limb sum splits into the limb kept and the carry. */
  lemma IncrementStart(x: seq<Limb>, none: seq<Limb>)
    requires none == []
    ensures Value(none) + Mul(Base(0), 1) == Value(x[..0]) + 1
  {
  }

  /** One limb of the carry loop. */
  lemma IncrementNext(x: seq<Limb>, p: seq<Limb>, i: nat, carry: nat)
    requires i < |x| == |p| && Value(p[..i]) + Mul(Base(i), 1) == Value(x[..i]) + 1
    requires p[i] == (x[i] + 1) % LIMB && carry == if p[i] == 0 then 1 else 0
    ensures Value(p[..i + 1]) + Mul(Base(i + 1), carry) == Value(x[..i + 1]) + 1
  {
    hide Mul, Value;
    MulBasics(Base(i));
    AddStep(Base(i), 1, x[i], 0, p[i], carry);
    ValueSnoc(p, i);
    ValueSnoc(x, i);
  }

  lemma AddStep(base: nat, carry: nat, x: nat, y: nat, low: int, high: int)
    requires carry + x + y == low + LIMB * high
    ensures Mul(base, carry) + Mul(base, x) + Mul(base, y) == Mul(base, low) + Mul(LIMB * base, high)
  {
    assert base * (carry + x + y) == base * carry + base * x + base * y;
    assert base * (low + LIMB * high) == base * low + base * (LIMB * high);
    MulAssociative(base, LIMB, high);
  }

  lemma SubtractMod(x: nat, y: nat, m: nat)
    requires x < m && y < m
    ensures (x + (m - y) % m) % m == (x - y) % m
  {
    if y == 0 {
      ModUnique(m, 1, 0, m);
    } else {
      ModUnique(m - y, 0, m - y, m);
      if x >= y {
        ModUnique(x + m - y, 1, x - y, m);
        ModUnique(x - y, 0, x - y, m);
      } else {
        ModUnique(x - y, -1, x - y + m, m);
        ModUnique(x + m - y, 0, x + m - y, m);
      }
    }
  }

  /** The accumulator of the inner loop fits 64 bits. */
  function Accumulate(carry: Limb, p: Limb, a: Limb, b: Limb): (n: nat)
    ensures n < U64
  {
    LargestProduct(a, b);
    MulDef(a, b);
    carry + p + (a as int) * (b as int)
  }

  lemma ProductGrows(a: nat, b: nat, m: nat)
    requires a <= b
    ensures 0 <= Mul(a, m) == Mul(m, a) <= Mul(b, m)
  {
    MulMonotonic(a, b, m);
  }

  lemma LargestProduct(a: nat, b: nat)
    requires a < LIMB && b < LIMB
    ensures 0 <= Mul(a, b) <= U64 - 2 * LIMB + 1
  {
    hide Mul;
    ProductGrows(a, LIMB - 1, b);
    ProductGrows(b, LIMB - 1, LIMB - 1);
    MulDef(LIMB - 1, LIMB - 1);
  }

  lemma AccumulateZero(p: seq<Limb>, a: Limb, i: nat, k: nat)
    requires i < |p| && k < |p| && forall m :: 0 <= m < |p| ==> p[m] == 0
    ensures Accumulate(0, p[k], a, p[i]) == 0
  {
  }

  /** i limbs of the row have been added to p; carry waits for the next. */
  ghost predicate RowAt(r: seq<Limb>, p: seq<Limb>, y: seq<Limb>, a: Limb, i: nat, j: nat, carry: nat) {
    && i + j <= |r| == |p| == |y|
    && r[i + j..] == p[i + j..]
    && Value(r[..i + j]) + Mul(Base(i + j), carry) == Value(p[..i + j]) + Mul(a, Mul(Base(j), Value(y[..i])))
  }

  ghost predicate RowAdded(p: seq<Limb>, r: seq<Limb>, a: Limb, y: seq<Limb>, j: nat) {
    |p| == |r| && exists wraps: int :: Value(r) + Mul(Base(|r|), wraps) == Value(p) + Mul(a, Mul(Base(j), Value(y)))
  }

  lemma RowStart(p: seq<Limb>, y: seq<Limb>, a: Limb, j: nat)
    requires j <= |p| == |y|
    ensures RowAt(p, p, y, a, 0, j, 0)
  {
    assert Value(y[..0]) == 0;
  }

  lemma RowNext(r: seq<Limb>, p: seq<Limb>, y: seq<Limb>, a: Limb, i: nat, j: nat, carry: nat)
    requires RowAt(r, p, y, a, i, j, carry) && i + j < |r| && carry < LIMB
    ensures var n := Accumulate(carry, r[i + j], a, y[i]);
            var low: Limb := n % LIMB;
            RowAt(r[i + j := low], p, y, a, i + 1, j, n / LIMB)
  {
    assert Accumulate(carry, r[i + j], a, y[i]) == carry + r[i + j] + Mul(a, y[i]);
    hide Mul, Accumulate;
    var n := Accumulate(carry, r[i + j], a, y[i]);
    var low: Limb := n % LIMB;
    var r' := r[i + j := low];
    assert r[i + j] == p[i + j] by { assert r[i + j..][0] == p[i + j..][0]; }
    assert r'[..i + j] == r[..i + j] && r'[i + j + 1..] == r[i + j..][1..] == p[i + j..][1..] == p[i + j + 1..];
    BaseAdd(i, j);
    ValueSnoc(r', i + j);
    ValueSnoc(p, i + j);
    ValueSnoc(y, i);
    RowStep(Base(i), Base(j), carry, p[i + j], a, y[i], low, n / LIMB, Value(y[..i]));
  }

  lemma RowStep(bi: nat, bj: nat, carry: nat, p: nat, a: nat, y: nat, low: int, high: int, done: nat)
    requires carry + p + Mul(a, y) == low + LIMB * high
    ensures Mul(Mul(bi, bj), carry) + Mul(Mul(bi, bj), p) + Mul(a, Mul(bj, done + Mul(bi, y)))
            == Mul(Mul(bi, bj), low) + Mul(LIMB * Mul(bi, bj), high) + Mul(a, Mul(bj, done))
  {
    var c := bi * bj;
    assert a * (bj * (done + bi * y)) == a * (bj * done) + c * (a * y);
    AddStep(c, carry, p, a * y, low, high);
  }

  /** The limbs of the row beyond the width only add multiples of the modulus. */
  lemma RowEnd(r: seq<Limb>, p: seq<Limb>, y: seq<Limb>, a: Limb, i: nat, j: nat, carry: nat)
    requires RowAt(r, p, y, a, i, j, carry) && i + j == |r|
    ensures RowAdded(p, r, a, y, j)
  {
    hide Mul;
    assert r[..i + j] == r && p[..i + j] == p;
    ValueSplit(y, i);
    BaseAdd(i, j);
    RowRest(Base(i), Base(j), a, Value(y[..i]), Value(y[i..]), carry);
    var wraps := carry + Mul(a, Value(y[i..]));
    assert Value(r) + Mul(Base(|r|), wraps) == Value(p) + Mul(a, Mul(Base(j), Value(y)));
  }

  lemma RowRest(bi: nat, bj: nat, a: nat, low: nat, high: nat, carry: nat)
    ensures Mul(Mul(bi, bj), carry + Mul(a, high)) + Mul(a, Mul(bj, low))
            == Mul(Mul(bi, bj), carry) + Mul(a, Mul(bj, low + Mul(bi, high)))
  {
    var c := bi * bj;
    assert a * (bj * (low + bi * high)) == a * (bj * low) + c * (a * high);
    assert c * (carry + a * high) == c * carry + c * (a * high);
  }

  /** j rows have been added. */
  ghost predicate Product(r: seq<Limb>, x: seq<Limb>, y: seq<Limb>, j: nat) {
    && j <= |x| == |r| == |y|
    && exists wraps: int :: Value(r) + Mul(Base(|r|), wraps) == Mul(Value(x[..j]), Value(y))
  }

  lemma ProductStart(r: seq<Limb>, x: seq<Limb>, y: seq<Limb>)
    requires Value(r) == 0 && |r| == |x| == |y|
    ensures Product(r, x, y, 0)
  {
    assert Value(x[..0]) == 0;
    assert Value(r) + Mul(Base(|r|), 0) == Mul(Value(x[..0]), Value(y));
  }

  lemma ProductNext(p: seq<Limb>, r: seq<Limb>, x: seq<Limb>, y: seq<Limb>, j: nat)
    requires Product(p, x, y, j) && j < |x| && RowAdded(p, r, x[j], y, j)
    ensures Product(r, x, y, j + 1)
  {
    hide Mul;
    var w: int :| Value(p) + Mul(Base(|p|), w) == Mul(Value(x[..j]), Value(y));
    var k: int :| Value(r) + Mul(Base(|r|), k) == Value(p) + Mul(x[j], Mul(Base(j), Value(y)));
    ValueSnoc(x, j);
    RowSum(Value(p), Value(r), Base(|r|), w, k, Value(x[..j]), Base(j), x[j], Value(y));
    assert Value(r) + Mul(Base(|r|), w + k) == Mul(Value(x[..j + 1]), Value(y));
  }

  lemma RowSum(before: int, after: int, m: int, wraps: int, k: int, done: int, bj: int, x: int, y: int)
    requires after + Mul(m, k) == before + Mul(x, Mul(bj, y)) && before + Mul(m, wraps) == Mul(done, y)
    ensures after + Mul(m, wraps + k) == Mul(done + Mul(bj, x), y)
  {
    assert (done + bj * x) * y == done * y + x * (bj * y);
    assert m * (wraps + k) == m * wraps + m * k;
  }

  lemma ProductEnd(r: seq<Limb>, x: seq<Limb>, y: seq<Limb>)
    requires Product(r, x, y, |x|)
    ensures Value(r) == (Value(x) * Value(y)) % Base(|r|)
  {
    var w: int :| Value(r) + Mul(Base(|r|), w) == Mul(Value(x[..|x|]), Value(y));
    assert x[..|x|] == x;
    ValueBound(r);
    MulUnique(Mul(Value(x), Value(y)), w, Value(r), Base(|r|));
  }

  lemma LeftShape(r: seq<Limb>, a: seq<Limb>, k: nat, s: nat, i: nat, c: nat)
    requires LeftAt(r, a, k, s, i, c) && i + k < |r|
    ensures r[i + k] == c && forall m :: i + k < m < |r| ==> r[m] == 0
  {
  }

  lemma ShiftEnd(r: seq<Limb>, a: seq<Limb>, k: nat, s: nat, c: nat, shift: nat)
    requires shift == 32 * k + s && |a| == |r|
    requires k <= |r| ==> LeftAt(r, a, k, s, |r| - k, c)
    requires k > |r| ==> forall m :: 0 <= m < |r| ==> r[m] == 0
    ensures Value(r) == (Value(a) * Pow2(shift)) % Base(|r|)
  {
    hide Mul, Value, Base, Pow2, LeftAt;
    MulDef(Value(a), Pow2(shift));
    if k <= |r| {
      LeftEnd(r, a, k, s, c);
    } else {
      ValueZero(r);
      LeftAway(Value(a), |r|, shift);
    }
  }

  lemma RightShape(r: seq<Limb>, a: seq<Limb>, k: nat, s: nat, i: nat)
    requires RightAt(r, a, k, s, i)
    ensures forall m :: i - k <= m < |r| ==> r[m] == 0
  {
  }

  lemma ShiftRightEnd(r: seq<Limb>, a: seq<Limb>, k: nat, s: nat, shift: nat)
    requires shift == 32 * k + s && |a| == |r|
    requires k <= |r| ==> RightAt(r, a, k, s, |r|)
    requires k > |r| ==> forall m :: 0 <= m < |r| ==> r[m] == 0
    ensures Value(r) == Value(a) / Pow2(shift)
  {
    if k <= |r| {
      RightEnd(r, a, k, s);
    } else {
      ValueZero(r);
      ValueBound(a);
      RightAway(Value(a), |r|, shift);
    }
  }
}
