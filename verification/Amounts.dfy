/** Amount compression (src/compressor.cpp): an amount becomes a small number by
    moving its trailing zeros into a digit, in 64-bit words. */
module Amounts {
  import opened Common
  import opened Limbs

  const COIN := 100000000
  const MAX_MONEY := 10000000000 * COIN

  /** The first number of a blinded output, and of one with token or data. */
  const BLSCT_MARKER := 170000000 * COIN
  const TOKEN_MARKER := BLSCT_MARKER + 1

  /** The one plain amount whose compressed form is a marker. */
  const AMBIGUOUS_AMOUNT := 1888888888888889

  function Ten(e: nat): nat { if e == 0 then 1 else 10 * Ten(e - 1) }

  /** Drop trailing zeros, e of them so far and nine at most. */
  function Strip(n: nat, e: nat): (nat, nat) {
    if n > 0 && n % 10 == 0 && e < 9 then Strip(n / 10, e + 1) else (n, e)
  }

  function Pack(m: nat, e: nat): nat
    requires m > 0 && e <= 9 && (e < 9 ==> m % 10 != 0)
  {
    if e < 9 then 1 + (m / 10 * 9 + m % 10 - 1) * 10 + e else 1 + (m - 1) * 10 + 9
  }

  function Unpack(x: nat): (r: (nat, nat))
    requires x > 0
    ensures r.0 > 0 && r.1 <= 9 && (r.1 < 9 ==> r.0 % 10 != 0)
  {
    var e, q := (x - 1) % 10, (x - 1) / 10;
    if e < 9 then (q / 9 * 10 + q % 9 + 1, e) else (q + 1, e)
  }

  lemma TenShift(m: nat, e: nat)
    ensures m * Ten(e) == if e == 0 then m else 10 * (m * Ten(e - 1))
  {
  }

  lemma {:induction false} StripResult(n: nat, e: nat)
    requires n > 0 && e <= 9
    ensures var (m, f) := Strip(n, e); e <= f <= 9 && 0 < m <= n && n == m * Ten(f - e) && (f < 9 ==> m % 10 != 0)
  {
    hide Ten;
    TenShift(n, 0);
    if n % 10 == 0 && e < 9 {
      StripResult(n / 10, e + 1);
      var (m, f) := Strip(n, e);
      TenShift(m, f - e);
    }
  }

  lemma {:induction false} StripZeros(m: nat, e: nat, k: nat)
    requires m > 0 && k + e <= 9 && (k + e < 9 ==> m % 10 != 0)
    ensures m * Ten(e) > 0 && Strip(m * Ten(e), k) == (m, k + e)
    decreases e
  {
    hide Ten;
    TenShift(m, e);
    if e > 0 {
      StripZeros(m, e - 1, k + 1);
      var n := m * Ten(e - 1);
      assert 10 * n / 10 == n && 10 * n % 10 == 0;
    }
  }

  function Compressed(n: nat): nat {
    if n == 0 then 0
    else
      StripResult(n, 0);
      var (m, e) := Strip(n, 0); Pack(m, e)
  }

  function Decompressed(x: nat): nat {
    if x == 0 then 0 else var (m, e) := Unpack(x); m * Ten(e)
  }

  lemma UnpackInverts(m: nat, e: nat)
    requires m > 0 && e <= 9 && (e < 9 ==> m % 10 != 0)
    ensures Pack(m, e) > 0 && Unpack(Pack(m, e)) == (m, e)
  {
    var x := Pack(m, e) - 1;
    if e < 9 {
      var q := m / 10 * 9 + m % 10 - 1;
      ModUnique(x, q, e, 10);
      ModUnique(q, m / 10, m % 10 - 1, 9);
    }
  }

  lemma PackInverts(x: nat)
    requires x > 0
    ensures Pack(Unpack(x).0, Unpack(x).1) == x
  {
    var e, q := (x - 1) % 10, (x - 1) / 10;
    assert x - 1 == 10 * q + e;
    if e < 9 {
      var m := q / 9 * 10 + (q % 9 + 1);
      assert m / 10 == q / 9 && m % 10 == q % 9 + 1;
    }
  }

  lemma DecompressInverts(n: nat)
    ensures Decompressed(Compressed(n)) == n
  {
    hide Pack, Unpack, Ten, Strip;
    if n > 0 {
      StripResult(n, 0);
      var (m, e) := Strip(n, 0);
      UnpackInverts(m, e);
    }
  }

  lemma CompressInverts(x: nat)
    ensures Compressed(Decompressed(x)) == x
  {
    hide Pack, Unpack, Ten, Strip;
    if x > 0 {
      var (m, e) := Unpack(x);
      StripZeros(m, e, 0);
      PackInverts(x);
    }
  }

  lemma CompressedExact(n: nat, x: nat)
    ensures Compressed(n) == x <==> n == Decompressed(x)
  {
    hide Compressed, Decompressed;
    DecompressInverts(n);
    CompressInverts(x);
  }

  lemma MarkerAmounts()
    ensures Decompressed(BLSCT_MARKER) == 1700000000000000 * 1000000000 > MAX_MONEY
    ensures Decompressed(TOKEN_MARKER) == AMBIGUOUS_AMOUNT <= MAX_MONEY
  {
    assert Unpack(BLSCT_MARKER) == (1700000000000000, 9);
    assert Unpack(TOKEN_MARKER) == (AMBIGUOUS_AMOUNT, 0);
    assert Ten(9) == 1000000000 && Ten(0) == 1;
  }

  /** No amount up to MAX_MONEY compresses to the first marker, and exactly one to
      the second. */
  lemma MarkersExact(n: nat)
    ensures Compressed(n) == BLSCT_MARKER <==> n == 1700000000000000 * 1000000000
    ensures Compressed(n) == TOKEN_MARKER <==> n == AMBIGUOUS_AMOUNT
    ensures n <= MAX_MONEY ==> Compressed(n) != BLSCT_MARKER
    ensures AMBIGUOUS_AMOUNT <= MAX_MONEY
  {
    hide Compressed, Decompressed;
    MarkerAmounts();
    CompressedExact(n, BLSCT_MARKER);
    CompressedExact(n, TOKEN_MARKER);
  }

  lemma CompressedFits(n: nat)
    requires n <= MAX_MONEY
    ensures Compressed(n) < U64
  {
    hide Pack, Strip, Ten;
    if n > 0 {
      StripResult(n, 0);
      var (m, e) := Strip(n, 0);
      PackBound(m, e);
    }
  }

  lemma PackBound(m: nat, e: nat)
    requires 0 < m && e <= 9 && (e < 9 ==> m % 10 != 0)
    ensures Pack(m, e) <= 10 * m
  {
    if e < 9 {
      var q, d := m / 10, m % 10;
      assert m == 10 * q + d && 1 + (q * 9 + d - 1) * 10 + e == 90 * q + 10 * d - 9 + e;
    }
  }

  lemma {:induction false} TenBound(e: nat, n: nat)
    requires e <= n
    ensures Ten(e) <= Ten(n)
  {
    if e < n { TenBound(e, n - 1); }
  }

  /** What 32 bits decompress to fits 63 bits. */
  lemma DecompressedBound(x: nat)
    requires x < 0x1_0000_0000
    ensures Decompressed(x) < U64 / 2
  {
    if x > 0 {
      var (m, e) := Unpack(x);
      UnpackBound(x);
      TenBound(e, 9);
      assert Ten(9) == 1000000000;
      Bounded(m, x, Ten(e));
    }
  }

  lemma UnpackBound(x: nat)
    requires x > 0
    ensures Unpack(x).0 <= x
  {
  }

  lemma Bounded(m: nat, x: nat, t: nat)
    requires m <= x < 0x1_0000_0000 && t <= 1000000000
    ensures m * t < U64 / 2
  {
    MulMonotonic(m, x, t);
    MulMonotonic(t, 1000000000, x);
  }

  function Word(x: int): nat { x % U64 }

  /** In 64-bit words the loop computes Compressed modulo 2^64, and exactly
      Compressed for every amount up to MAX_MONEY. */
  method CompressAmount(amount: nat) returns (x: nat)
    requires amount < U64
    ensures x == Compressed(amount) % U64
    ensures amount <= MAX_MONEY ==> x == Compressed(amount)
  {
    hide Pack, Ten;
    if amount <= MAX_MONEY {
      CompressedFits(amount);
      WordSmall(Compressed(amount));
    }
    if amount == 0 { return 0; }
    StripResult(amount, 0);
    var n, e: nat := amount, 0;
    while n % 10 == 0 && e < 9
      invariant 0 < n < U64 && e <= 9
      invariant Strip(amount, 0) == Strip(n, e)
    {
      QuotientPositive(n);
      n, e := n / 10, e + 1;
    }
    WordPack(n, e);
    if e < 9 {
      var d := n % 10;
      assert 1 <= d <= 9;
      n := n / 10;
      x := Word(1 + Word(Word(n * 9 + d - 1) * 10) + e);
    } else {
      x := Word(1 + Word((n - 1) * 10) + 9);
    }
  }

  lemma QuotientPositive(n: nat)
    requires n > 0 && n % 10 == 0
    ensures 0 < n / 10 <= n
  {
  }

  lemma WordSmall(x: nat)
    requires x < U64
    ensures Word(x) == x
  {
  }

  /** Reducing after every operation or once at the end is the same. */
  lemma WordPack(m: nat, e: nat)
    requires m > 0 && e <= 9 && (e < 9 ==> m % 10 != 0)
    ensures Word(Pack(m, e)) ==
      if e < 9 then Word(1 + Word(Word(m / 10 * 9 + m % 10 - 1) * 10) + e) else Word(1 + Word((m - 1) * 10) + 9)
  {
    if e < 9 { WordLinear(m / 10 * 9 + m % 10 - 1, 1 + e); } else { WordLinear(m - 1, 10); }
  }

  lemma WordLinear(n: nat, c: nat)
    ensures Word(Word(Word(n) * 10) + c) == Word(Word(n * 10) + c) == Word(n * 10 + c)
  {
    hide Word;
    WordTimesTen(n);
    WordAdd(n * 10, c);
  }

  lemma WordAdd(a: nat, c: nat)
    ensures Word(Word(a) + c) == Word(a + c)
  {
    var q, r := a / U64, Word(a);
    var q', r' := (r + c) / U64, Word(r + c);
    ModUnique(a + c, q + q', r', U64);
  }

  lemma WordTimesTen(n: nat)
    ensures Word(Word(n) * 10) == Word(n * 10)
  {
    var q, r := n / U64, Word(n);
    var q', r' := r * 10 / U64, Word(r * 10);
    assert n * 10 == (q * 10 + q') * U64 + r';
    ModUnique(n * 10, q * 10 + q', r', U64);
  }

  lemma TenTimes(g: nat, e: nat)
    requires e > 0
    ensures (g * 10) * Ten(e - 1) == g * Ten(e)
  {
  }

  method DecompressAmount(compressed: nat) returns (amount: nat)
    requires compressed < U64
    ensures amount == Decompressed(compressed) % U64
    ensures Decompressed(compressed) < U64 ==> amount == Decompressed(compressed)
  {
    hide Ten, Word;
    if compressed == 0 { return 0; }
    WordUnpack(compressed);
    var x := compressed - 1;
    var e: nat := x % 10;
    x := x / 10;
    var n := 0;
    if e < 9 {
      var d := x % 9 + 1;
      x := x / 9;
      n := Word(x * 10 + d);
    } else {
      n := Word(x + 1);
    }
    amount := TimesTen(n, e);
  }

  lemma WordUnpack(x: nat)
    requires 0 < x < U64
    ensures Word(Unpack(x).0) == Unpack(x).0 < U64
    ensures forall n: nat {:trigger Word(n)} :: Word(n) == n % U64 && (n < U64 ==> Word(n) == n)
  {
  }

  method TimesTen(m: nat, zeros: nat) returns (n: nat)
    requires m < U64
    ensures n == Word(m * Ten(zeros))
  {
    hide Ten, Word;
    n := m;
    WordSmall(m);
    var e := zeros;
    ghost var g: nat := m;
    while e != 0
      invariant n == Word(g) && g * Ten(e) == m * Ten(zeros)
    {
      TenTimes(g, e);
      WordTimesTen(g);
      g := g * 10;
      n := Word(n * 10);
      e := e - 1;
    }
    TenZero();
  }

  lemma TenZero()
    ensures Ten(0) == 1
  {
  }
}
