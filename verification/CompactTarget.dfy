/** The compact form of difficulty targets and the work of a block
    (arith_uint256::SetCompact and GetCompact, src/arith_uint256.cpp;
    GetBlockProof, src/chain.cpp). */
module CompactTarget {
  import opened Common
  import opened Limbs
  import opened BaseUint
  import opened UintDivide

  const SIGN_BIT: nat := 0x80_0000
  const WORD_BITS: nat := 0x100_0000

  /** 256 to the k. */
  function Pow256(k: nat): (p: nat)
    ensures p > 0
  {
    if k == 0 then 1 else 256 * Pow256(k - 1)
  }

  lemma {:induction false} Pow256Add(a: nat, b: nat)
    ensures Pow256(a + b) == Mul(Pow256(a), Pow256(b))
  {
    if a > 0 {
      Pow256Add(a - 1, b);
      MulAssociative(256, Pow256(a - 1), Pow256(b));
    }
  }

  lemma {:induction false} Pow256IsPow2(k: nat)
    ensures Pow256(k) == Pow2(8 * k)
  {
    if k > 0 {
      Pow256IsPow2(k - 1);
      assert Pow2(8) == 256;
      Pow2Add(8, 8 * (k - 1));
    }
  }

  lemma {:induction false} Pow256Monotonic(a: nat, b: nat)
    requires a <= b
    ensures Pow256(a) <= Pow256(b)
    decreases b
  {
    if a < b { Pow256Monotonic(a, b - 1); }
  }

  /** mantissa times 256 to the (size - 3), rounded down. */
  function Expand(mantissa: nat, size: nat): nat {
    if size <= 3 then QuotientBound(mantissa, Pow256(3 - size)); mantissa / Pow256(3 - size)
    else MulMonotonic(0, mantissa, Pow256(size - 3)); mantissa * Pow256(size - 3)
  }

  function CompactValue(compact: nat): nat {
    Expand(compact % SIGN_BIT, compact / WORD_BITS)
  }

  ghost predicate TooLarge(word: nat, size: nat) {
    word != 0 && (size > 34 || (word > 0xff && size > 33) || (word > 0xffff && size > 32))
  }

  /** The overflow test is exact. */
  lemma OverflowExact(mantissa: nat, size: nat)
    requires mantissa < SIGN_BIT && size > 3
    ensures TooLarge(mantissa, size) <==> mantissa * Pow256(size - 3) >= Pow256(32)
  {
    hide Pow256;
    SmallPowers();
    if size <= 32 {
      Pow256Add(3, size - 3);
      Pow256Monotonic(size, 32);
      Threshold(mantissa, Pow256(3), Pow256(size - 3));
    } else if size <= 35 {
      Pow256Add(35 - size, size - 3);
      Threshold(mantissa, Pow256(35 - size), Pow256(size - 3));
    } else {
      Pow256Monotonic(32, size - 3);
      if mantissa > 0 { MulMonotonic(1, mantissa, Pow256(size - 3)); }
    }
  }

  lemma Threshold(m: nat, bound: nat, p: nat)
    requires p > 0
    ensures m * p >= Mul(bound, p) <==> m >= bound
  {
    if m >= bound {
      MulMonotonic(bound, m, p);
    } else {
      MulMonotonic(m + 1, bound, p);
      assert (m + 1) * p == m * p + p;
    }
  }

  method SetCompact(a: Uint, compact: nat) returns (negative: bool, overflow: bool)
    requires compact < LIMB && a.pn.Length == 8
    modifies a.pn
    ensures a.Val() == CompactValue(compact) % Pow256(32)
    ensures overflow <==> CompactValue(compact) >= Pow256(32)
    ensures negative <==> CompactValue(compact) != 0 && (compact / SIGN_BIT) % 2 == 1
  {
    hide Pow256;
    var size, word := compact / WORD_BITS, compact % SIGN_BIT;
    Pow256IsPow2(32);
    BaseIsPow2(8);
    if size <= 3 {
      Pow256IsPow2(3 - size);
      QuotientBound(word, Pow256(3 - size));
      word := word / Pow2(8 * (3 - size));
      a.AssignWord(word);
      SmallWord(word);
    } else {
      a.AssignWord(word);
      a.ShiftLeft(8 * (size - 3));
      Pow256IsPow2(size - 3);
      OverflowExact(word, size);
      NonZeroProduct(word, Pow256(size - 3));
    }
    negative := word != 0 && (compact / SIGN_BIT) % 2 == 1;
    overflow := word != 0 && (size > 34 || (word > 0xff && size > 33) || (word > 0xffff && size > 32));
  }

  lemma SmallWord(word: nat)
    requires word < SIGN_BIT
    ensures word < Pow256(32) && word % Pow256(32) == word
  {
    assert Pow256(3) == 0x100_0000;
    Pow256Monotonic(3, 32);
    ModUnique(word, 0, word, Pow256(32));
  }

  lemma NonZeroProduct(a: nat, b: nat)
    requires b > 0
    ensures a * b == 0 <==> a == 0
  {
    if a > 0 { MulMonotonic(1, a, b); }
  }

  // ---- encoding ----

  /** How many bytes a number takes. */
  function ByteLength(v: nat): nat {
    if v == 0 then 0 else 1 + ByteLength(v / 256)
  }

  lemma {:induction false} ByteLengthBounds(v: nat)
    ensures v < Pow256(ByteLength(v))
    ensures v > 0 ==> ByteLength(v) > 0 && Pow256(ByteLength(v) - 1) <= v
    ensures v == 0 ==> ByteLength(v) == 0
  {
    if v > 0 {
      ByteLengthBounds(v / 256);
    }
  }

  lemma ByteLengthUnique(v: nat, n: nat)
    requires v < Pow256(n) && (n > 0 ==> Pow256(n - 1) <= v)
    ensures ByteLength(v) == n
  {
    ByteLengthBounds(v);
    var k := ByteLength(v);
    if k < n {
      Pow256Monotonic(k, n - 1);
    } else if n < k {
      Pow256Monotonic(n, k - 1);
    }
  }

  lemma BitsToBytes(v: nat, bits: nat)
    requires HasBits(v, bits)
    ensures ByteLength(v) == (bits + 7) / 8
  {
    var n := (bits + 7) / 8;
    if bits > 0 {
      Pow256IsPow2(n);
      Pow256IsPow2(n - 1);
      Pow2Monotonic(bits, 8 * n);
      Pow2Monotonic(8 * (n - 1), bits - 1);
    }
    ByteLengthUnique(v, n);
  }

  /** The three leading bytes, padded with zero bytes on the right. */
  function Leading(v: nat): nat {
    var n := ByteLength(v);
    if n <= 3 then MulMonotonic(0, v, Pow256(3 - n)); v * Pow256(3 - n)
    else QuotientBound(v, Pow256(n - 3)); v / Pow256(n - 3)
  }

  lemma LeadingBounds(v: nat)
    ensures Leading(v) < WORD_BITS
    ensures v > 0 ==> 0x1_0000 <= Leading(v)
  {
    hide Pow256;
    ByteLengthBounds(v);
    var n := ByteLength(v);
    SmallPowers();
    if n <= 3 {
      Pow256Add(n, 3 - n);
      Scale(v, Pow256(n), Pow256(3 - n));
      if v > 0 {
        Pow256Add(n - 1, 3 - n);
        Scale'(Pow256(n - 1), v, Pow256(3 - n));
      }
    } else {
      Pow256Add(3, n - 3);
      Pow256Add(2, n - 3);
      QuotientRange(v, Pow256(n - 3), Pow256(2), Pow256(3));
    }
  }

  lemma SmallPowers()
    ensures Pow256(0) == 1 && Pow256(1) == 256 && Pow256(2) == 0x1_0000 && Pow256(3) == WORD_BITS
  {
  }

  lemma Scale(a: nat, b: nat, p: nat)
    requires a < b && p > 0
    ensures a * p < Mul(b, p)
  {
    MulMonotonic(a + 1, b, p);
    assert (a + 1) * p == a * p + p;
  }

  lemma Scale'(a: nat, b: nat, p: nat)
    requires a <= b
    ensures Mul(a, p) <= b * p
  {
    MulMonotonic(a, b, p);
  }

  lemma QuotientRange(v: nat, p: nat, low: nat, high: nat)
    requires p > 0 && Mul(low, p) <= v < Mul(high, p)
    ensures low <= v / p < high
  {
    var q, r := v / p, v % p;
    assert v == q * p + r;
    if q >= high { MulMonotonic(high, q, p); }
    if q < low { MulMonotonic(q + 1, low, p); }
  }

  /** GetCompact on numbers: a leading byte that would set the sign bit costs one
      byte of precision. */
  function Encode(v: nat, negative: bool): nat {
    var lead, n := Leading(v), ByteLength(v);
    var word := if lead >= SIGN_BIT then lead / 256 else lead;
    var size := if lead >= SIGN_BIT then n + 1 else n;
    word + size * WORD_BITS + (if negative && word != 0 then SIGN_BIT else 0)
  }

  /** How many low bytes the compact form drops. */
  function Dropped(v: nat): nat {
    var n, kept := ByteLength(v), if Leading(v) >= SIGN_BIT then 2 else 3;
    if n <= kept then 0 else n - kept
  }

  /** v with only its leading two or three bytes kept. */
  function Rounded(v: nat): int {
    (v / Pow256(Dropped(v))) * Pow256(Dropped(v))
  }

  lemma EncodeParts(v: nat, negative: bool)
    ensures var lead, n := Leading(v), ByteLength(v);
            var word := if lead >= SIGN_BIT then lead / 256 else lead;
            var size := if lead >= SIGN_BIT then n + 1 else n;
            && Encode(v, negative) % SIGN_BIT == word
            && Encode(v, negative) / WORD_BITS == size
            && word < SIGN_BIT
  {
    hide Leading, ByteLength;
    LeadingBounds(v);
    var lead, n := Leading(v), ByteLength(v);
    var word := if lead >= SIGN_BIT then lead / 256 else lead;
    var size := if lead >= SIGN_BIT then n + 1 else n;
    var sign := if negative && word != 0 then 1 else 0;
    ModUnique(Encode(v, negative), 2 * size + sign, word, SIGN_BIT);
    ModUnique(Encode(v, negative), size, word + sign * SIGN_BIT, WORD_BITS);
  }

  /** Decoding the encoding gives the number rounded down to its leading bytes. */
  lemma CompactRoundTrip(v: nat, negative: bool)
    ensures CompactValue(Encode(v, negative)) == Rounded(v)
  {
    hide Encode, Pow256, ByteLength;
    EncodeParts(v, negative);
    LeadingBounds(v);
    SmallPowers();
    var n := ByteLength(v);
    if n <= 2 {
      ExactWord(v, Pow256(3 - n), Pow256(2 - n));
      Pow256Add(1, 2 - n);
    } else if n > 3 {
      Pow256Add(1, n - 3);
      DivideTwice(v, Pow256(n - 3));
    }
  }

  lemma ExactWord(v: nat, p: nat, p': nat)
    requires p == 256 * p' && p' > 0
    ensures (v * p) / p == v && ((v * p) / 256) / p' == v
  {
    ModUnique(v * p, v, 0, p);
    assert v * p == (v * p') * 256;
    ModUnique(v * p, v * p', 0, 256);
    ModUnique(v * p', v, 0, p');
  }

  lemma DivideTwice(v: nat, p: nat)
    requires p > 0
    ensures (v / p) / 256 == v / (256 * p)
  {
    var q, r := v / p, v % p;
    assert v == q * p + r;
    var q', r' := q / 256, q % 256;
    assert v == q' * (256 * p) + (r' * p + r);
    MulMonotonic(r' + 1, 256, p);
    assert (r' + 1) * p == r' * p + p;
    ModUnique(v, q', r' * p + r, 256 * p);
  }

  lemma RoundedLength(v: nat)
    ensures Rounded(v) >= 0 && ByteLength(Rounded(v)) == ByteLength(v)
  {
    hide Pow256, ByteLength, Leading;
    ByteLengthBounds(v);
    SmallPowers();
    var n, d := ByteLength(v), Dropped(v);
    if d > 0 {
      Pow256Add(n - 1 - d, d);
      KeepsLength(v, Pow256(d), Pow256(n - 1 - d));
      ByteLengthUnique(Rounded(v), n);
    } else {
      assert Rounded(v) == v;
    }
  }

  lemma RoundedLeading(v: nat)
    ensures Rounded(v) >= 0
    ensures || Leading(Rounded(v)) == Leading(v)
            || (Leading(v) >= SIGN_BIT && Leading(Rounded(v)) == Leading(v) / 256 * 256)
  {
    hide Pow256, ByteLength;
    RoundedLength(v);
    SmallPowers();
    var n, d := ByteLength(v), Dropped(v);
    if d > 0 {
      Pow256Add(d - (n - 3), n - 3);
      KeepsLeading(v, Pow256(n - 3), Pow256(d - (n - 3)));
    } else {
      assert Rounded(v) == v;
    }
  }

  /** Encoding is stable: what it keeps encodes to the same word. */
  lemma CompactStable(v: nat, negative: bool)
    ensures Rounded(v) >= 0 && Encode(Rounded(v), negative) == Encode(v, negative)
  {
    hide ByteLength, Leading, Rounded;
    RoundedLength(v);
    RoundedLeading(v);
  }

  lemma KeepsLength(v: nat, p: nat, q: nat)
    requires p > 0 && Mul(q, p) <= v
    ensures Mul(q, p) <= (v / p) * p <= v
  {
    var a, r := v / p, v % p;
    assert v == a * p + r;
    if a < q { MulMonotonic(a + 1, q, p); }
    MulMonotonic(q, a, p);
  }

  /** Dropping whole bytes below the leading ones leaves the leading word; one
      byte more clears its last byte. */
  lemma KeepsLeading(v: nat, p: nat, e: nat)
    requires p > 0 && (e == 1 || e == 256)
    ensures ((v / Mul(e, p)) * Mul(e, p)) / p == if e == 1 then v / p else (v / p) / 256 * 256
  {
    if e == 1 {
      ModUnique((v / p) * p, v / p, 0, p);
    } else {
      DivideTwice(v, p);
      var q := v / (256 * p);
      assert q * (256 * p) == (256 * q) * p;
      ModUnique(q * (256 * p), 256 * q, 0, p);
    }
  }

  /** GetCompact on the limbs; its two assertions hold. */
  method GetCompact(a: Uint, negative: bool) returns (compact: nat)
    requires a.pn.Length == 8
    ensures compact == Encode(a.Val(), negative) && compact < LIMB
  {
    hide Value, Base, Pow256, Pow2, ByteLength, Leading;
    var bits := Bits(a);
    BitsToBytes(a.Val(), bits);
    LeadingBounds(a.Val());
    var size := (bits + 7) / 8;
    var word := LeadingWord(a, size);
    if (word / SIGN_BIT) % 2 == 1 {
      word := word / 256;
      size := size + 1;
    }
    assert word < SIGN_BIT && size < 256;
    compact := word + size * WORD_BITS;
    if negative && word != 0 {
      compact := compact + SIGN_BIT;
    }
  }

  method LeadingWord(a: Uint, size: nat) returns (word: nat)
    requires a.pn.Length == 8 && size == ByteLength(a.Val())
    ensures word == Leading(a.Val())
  {
    hide Value, Base, Pow256, Pow2, ByteLength;
    LeadingBounds(a.Val());
    SmallPowers();
    ByteLengthBounds(a.Val());
    if size <= 3 {
      Pow256Monotonic(size, 3);
      Pow256IsPow2(3 - size);
      var low := Low64(a);
      ModUnique(a.Val(), 0, a.Val(), U64);
      word := Times(low, Pow2(8 * (3 - size))) % LIMB;
      ModUnique(Leading(a.Val()), 0, Leading(a.Val()), LIMB);
    } else {
      var bn := new Uint.Copy(a);
      bn.ShiftRight(8 * (size - 3));
      Pow256IsPow2(size - 3);
      var low := Low64(bn);
      ModUnique(Leading(a.Val()), 0, Leading(a.Val()), U64);
      word := low % LIMB;
      ModUnique(Leading(a.Val()), 0, Leading(a.Val()), LIMB);
    }
  }

  function Times(a: nat, b: nat): int { a * b }

  /** GetLow64. */
  method Low64(a: Uint) returns (w: nat)
    requires a.pn.Length >= 2
    ensures w == a.Val() % U64
  {
    w := a.pn[0] + LIMB * a.pn[1];
    var s := a.pn[..];
    ValueSplit(s, 2);
    assert s[..2] == [s[0], s[1]];
    assert Value([s[0], s[1]]) == w by { assert Value([s[1]]) == s[1]; }
    assert Base(2) == U64;
    ModUnique(a.Val(), Value(s[2..]), w, U64);
  }

  // ---- block work ----

  ghost predicate ValidTarget(nBits: nat) {
    var t := CompactValue(nBits);
    0 < t < Pow256(32) && (nBits / SIGN_BIT) % 2 == 0
  }

  /** A target that fits is never all ones, so adding one does not wrap. */
  lemma TargetPlusOneFits(nBits: nat)
    requires CompactValue(nBits) < Pow256(32)
    ensures CompactValue(nBits) + 1 < Pow256(32)
  {
    hide Pow256;
    var m, size := nBits % SIGN_BIT, nBits / WORD_BITS;
    SmallPowers();
    Pow256Add(1, 31);
    if size > 3 {
      Pow256Add(1, size - 4);
      var p, q := Pow256(size - 4), Pow256(31);
      assert m * (256 * p) == 256 * (m * p);
    } else {
      QuotientBound(m, Pow256(3 - size));
      Pow256Monotonic(3, 32);
    }
  }

  lemma WorkFormula(m: nat, t: nat)
    requires 0 < t && t + 1 < m
    ensures (m - 1 - t) / (t + 1) + 1 == m / (t + 1) < m
  {
    var d := t + 1;
    var q, r := (m - d) / d, (m - d) % d;
    assert m - d == q * d + r;
    assert m == (q + 1) * d + r;
    ModUnique(m, q + 1, r, d);
    assert (q + 1) * d >= (q + 1) * 2 by { MulMonotonic(2, d, q + 1); }
  }

  /** GetBlockProof: 2^256 / (target + 1) rounded down, although 2^256 itself
      cannot be represented; zero for a target that is not valid. */
  method GetBlockProof(nBits: nat) returns (work: Uint)
    requires nBits < LIMB
    ensures fresh(work) && work.pn.Length == 8
    ensures work.Val() == if ValidTarget(nBits) then Pow256(32) / (CompactValue(nBits) + 1) else 0
  {
    hide Value, Base, Pow256, Pow2, CompactValue;
    work := new Uint(8);
    var target := new Uint(8);
    var negative, overflow := SetCompact(target, nBits);
    Pow256IsPow2(32);
    BaseIsPow2(8);
    ghost var t, m := CompactValue(nBits), Pow256(32);
    var zero := Compare(target, work);
    if negative || overflow {
      return;
    }
    ModUnique(t, 0, t, m);
    if zero == 0 {
      return;
    }
    TargetPlusOneFits(nBits);
    work := WorkOf(target);
  }

  /** ~target / (target + 1) + 1. */
  method WorkOf(target: Uint) returns (work: Uint)
    requires target.pn.Length == 8 && 0 < target.Val() && target.Val() + 1 < Pow256(32)
    modifies target.pn
    ensures fresh(work) && fresh(work.pn) && work.pn.Length == 8
    ensures work.Val() == Pow256(32) / (old(target.Val()) + 1)
  {
    hide Value, Base, Pow256, Pow2;
    Pow256IsPow2(32);
    BaseIsPow2(8);
    ghost var t, m := target.Val(), Pow256(32);
    WorkFormula(m, t);
    ModUnique(t + 1, 0, t + 1, m);
    var one := new Uint(8);
    one.AssignWord(1);
    work := target.Complement();
    target.Add(one);
    var _ := Divide(work, target);
    ModUnique(m / (t + 1), 0, m / (t + 1), m);
    work.Add(one);
  }
}
