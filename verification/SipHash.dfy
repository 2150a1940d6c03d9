/** SipHash-2-4 (src/hash.h, src/hash.cpp): a hasher fed by bytes or words, and the
    unrolled form for 256-bit values. Words are numbers below 2^64. */
module SipHash {
  import opened Common
  import opened Limbs

  datatype Lanes = Lanes(v0: nat, v1: nat, v2: nat, v3: nat)

  function Xor(a: nat, b: nat): nat {
    if a == 0 && b == 0 then 0 else (a + b) % 2 + 2 * Xor(a / 2, b / 2)
  }

  function Add(a: nat, b: nat): nat { (a + b) % U64 }

  function Rotl(x: nat, high: nat, low: nat): nat
    requires low > 0
  {
    x * high % U64 + x / low
  }

  function Rotl13(x: nat): nat { Rotl(x, 0x2000, 0x8000000000000) }
  function Rotl16(x: nat): nat { Rotl(x, 0x10000, 0x1000000000000) }
  function Rotl17(x: nat): nat { Rotl(x, 0x20000, 0x800000000000) }
  function Rotl21(x: nat): nat { Rotl(x, 0x200000, 0x80000000000) }
  function Rotl32(x: nat): nat { Rotl(x, 0x100000000, 0x100000000) }

  function Round(s: Lanes): Lanes {
    var v0 := Add(s.v0, s.v1);
    var v1 := Xor(Rotl13(s.v1), v0);
    var v0 := Rotl32(v0);
    var v2 := Add(s.v2, s.v3);
    var v3 := Xor(Rotl16(s.v3), v2);
    var v0 := Add(v0, v3);
    var v3 := Xor(Rotl21(v3), v0);
    var v2 := Add(v2, v1);
    var v1 := Xor(Rotl17(v1), v2);
    Lanes(v0, v1, Rotl32(v2), v3)
  }

  /** One word of input. */
  function Absorb(s: Lanes, w: nat): Lanes {
    var r := Round(Round(s.(v3 := Xor(s.v3, w))));
    r.(v0 := Xor(r.v0, w))
  }

  function Seeded(k0: nat, k1: nat): Lanes {
    Lanes(Xor(0x736f6d6570736575, k0), Xor(0x646f72616e646f6d, k1),
          Xor(0x6c7967656e657261, k0), Xor(0x7465646279746573, k1))
  }

  function Finish(s: Lanes): nat {
    var r := Round(Round(Round(Round(s.(v2 := Xor(s.v2, 0xFF))))));
    Xor(Xor(Xor(r.v0, r.v1), r.v2), r.v3)
  }

  // ---- bytes and words ----

  /** The bytes as a little-endian number. */
  function Part(b: seq<byte>): nat {
    if b == [] then 0 else b[0] + 256 * Part(b[1..])
  }

  function Bytes(w: nat, n: nat): (b: seq<byte>)
    ensures |b| == n
  {
    if n == 0 then [] else [w % 256] + Bytes(w / 256, n - 1)
  }

  lemma {:induction false} PartOfBytes(w: nat, n: nat)
    requires w < Pow2(8 * n)
    ensures Part(Bytes(w, n)) == w
  {
    if n > 0 {
      Pow2Byte(n - 1);
      PartOfBytes(w / 256, n - 1);
      assert Bytes(w, n)[1..] == Bytes(w / 256, n - 1);
    }
  }

  lemma Pow2Byte(n: nat)
    ensures Pow2(8 * (n + 1)) == 256 * Pow2(8 * n)
  {
    assert Pow2(8) == 256;
    Pow2Add(8, 8 * n);
  }

  lemma {:induction false} PartBound(b: seq<byte>)
    ensures Part(b) < Pow2(8 * |b|)
  {
    if b != [] {
      PartBound(b[1..]);
      Pow2Byte(|b| - 1);
    }
  }

  lemma {:induction false} PartSnoc(b: seq<byte>, x: byte)
    ensures Part(b + [x]) == Part(b) + x * Pow2(8 * |b|)
  {
    if b == [] {
      assert b + [x] == [x];
    } else {
      PartSnoc(b[1..], x);
      assert (b + [x])[1..] == b[1..] + [x];
      Pow2Byte(|b| - 1);
      assert 256 * (x * Pow2(8 * |b| - 8)) == x * (256 * Pow2(8 * |b| - 8));
    }
  }

  /** A byte at place k of a word. */
  function Shifted(x: byte, k: nat): nat {
    MulMonotonic(0, x, Pow2(8 * k));
    x * Pow2(8 * k)
  }

  /** A byte shifted to the next place and or-ed in. */
  lemma OrSnoc(b: seq<byte>, x: byte)
    ensures Or(Part(b), Shifted(x, |b|)) == Part(b + [x])
  {
    hide Pow2, Or, Part;
    var p := Pow2(8 * |b|);
    PartBound(b);
    PartSnoc(b, x);
    ModUnique(x * p, x, 0, p);
    OrDisjoint(Shifted(x, |b|), Part(b), 8 * |b|);
    OrCommutes(Shifted(x, |b|), Part(b));
  }

  // ---- the hash of a message ----

  /** The length, modulo 256, in the top byte. */
  function Tag(n: nat): nat { n % 256 * 0x100000000000000 }

  /** Whole words are absorbed; fewer than eight bytes are left over. */
  function Fed<S>(f: (S, nat) -> S, s: S, m: seq<byte>): (S, seq<byte>) {
    if |m| < 8 then (s, m) else Fed(f, f(s, Part(m[..8])), m[8..])
  }

  lemma {:induction false} FedRest<S>(f: (S, nat) -> S, s: S, m: seq<byte>)
    ensures |Fed(f, s, m).1| == |m| % 8
    decreases |m|
  {
    hide Part;
    if |m| >= 8 { FedRest(f, f(s, Part(m[..8])), m[8..]); }
  }

  lemma {:induction false} FedConcat<S>(f: (S, nat) -> S, s: S, a: seq<byte>, b: seq<byte>)
    ensures Fed(f, s, a + b) == var (t, rest) := Fed(f, s, a); Fed(f, t, rest + b)
    decreases |a|
  {
    hide Part;
    if |a| >= 8 {
      FedConcat(f, f(s, Part(a[..8])), a[8..], b);
      assert (a + b)[..8] == a[..8] && (a + b)[8..] == a[8..] + b;
    }
  }

  lemma FedWord<S>(f: (S, nat) -> S, s: S, b: seq<byte>)
    requires |b| == 8
    ensures Fed(f, s, b) == (f(s, Part(b)), [])
  {
    hide Part;
    assert b[..8] == b && b[8..] == [];
  }

  lemma FedShort<S>(f: (S, nat) -> S, s: S, b: seq<byte>)
    requires |b| < 8
    ensures Fed(f, s, b) == (s, b)
  {
  }

  /** SipHash-2-4: the whole words, then a word of the left over bytes and the length. */
  function Sip(k0: nat, k1: nat, m: seq<byte>): nat {
    var (s, rest) := Fed(Absorb, Seeded(k0, k1), m);
    Finish(Absorb(s, Or(Part(rest), Tag(|m|))))
  }

  lemma PartOfNone()
    ensures Part([]) == 0
  {
  }

  lemma WordBytes(w: nat)
    requires w < U64
    ensures Part(Bytes(w, 8)) == w
  {
    Pow2Limb();
    Pow2Add(32, 32);
    PartOfBytes(w, 8);
  }

  ghost predicate Holds<S>(f: (S, nat) -> S, start: S, data: seq<byte>, v: S, tmp: nat, count: nat) {
    && count == |data| && Fed(f, start, data).0 == v && tmp == Part(Fed(f, start, data).1)
  }

  lemma ByteStep<S>(f: (S, nat) -> S, start: S, data: seq<byte>, v: S, tmp: nat, count: nat, x: byte)
    requires Holds(f, start, data, v, tmp, count)
    ensures var t := Or(tmp, Shifted(x, count % 8));
      if (count + 1) % 8 == 0 then Holds(f, start, data + [x], f(v, t), 0, count + 1)
      else Holds(f, start, data + [x], v, t, count + 1)
  {
    hide Part, Fed, Or, Shifted;
    FedConcat(f, start, data, [x]);
    FedRest(f, start, data);
    var rest := Fed(f, start, data).1;
    OrSnoc(rest, x);
    PartOfNone();
    if |rest| == 7 {
      FedWord(f, v, rest + [x]);
    } else {
      FedShort(f, v, rest + [x]);
    }
  }

  lemma WordStep<S>(f: (S, nat) -> S, start: S, data: seq<byte>, v: S, tmp: nat, count: nat, w: nat)
    requires Holds(f, start, data, v, tmp, count) && count % 8 == 0 && w < U64
    ensures Holds(f, start, data + Bytes(w, 8), f(v, w), tmp, count + 8)
  {
    hide Part, Fed, Bytes;
    FedConcat(f, start, data, Bytes(w, 8));
    FedRest(f, start, data);
    assert [] + Bytes(w, 8) == Bytes(w, 8);
    FedWord(f, v, Bytes(w, 8));
    WordBytes(w);
  }

  class Hasher {
    const k0: nat
    const k1: nat
    var v: Lanes
    var tmp: nat
    var count: nat
    /** Everything written so far. */
    ghost var data: seq<byte>

    ghost predicate Valid()
      reads this
    {
      Holds(Absorb, Seeded(k0, k1), data, v, tmp, count)
    }

    constructor (k0: nat, k1: nat)
      ensures Valid() && data == [] && this.k0 == k0 && this.k1 == k1
    {
      hide Seeded;
      this.k0, this.k1 := k0, k1;
      v, tmp, count, data := Seeded(k0, k1), 0, 0, [];
    }

    /** A word counts as its eight little-endian bytes. */
    method WriteWord(w: nat)
      requires Valid() && w < U64 && count % 8 == 0
      modifies this
      ensures Valid() && data == old(data) + Bytes(w, 8)
    {
      hide Absorb, Part, Fed, Bytes, Seeded, Holds;
      WordStep(Absorb, Seeded(k0, k1), data, v, tmp, count, w);
      v := Absorb(v, w);
      count := count + 8;
      data := data + Bytes(w, 8);
    }

    /** Bytes may be written in any pieces: only their concatenation matters. */
    method WriteBytes(input: seq<byte>)
      requires Valid()
      modifies this
      ensures Valid() && data == old(data) + input
    {
      hide Absorb, Part, Fed, Seeded, Holds, Or, Shifted;
      var s, t, c := v, tmp, count;
      var i := 0;
      assert data + input[..0] == data;
      while i < |input|
        invariant 0 <= i <= |input| && Holds(Absorb, Seeded(k0, k1), old(data) + input[..i], s, t, c)
        modifies {}
      {
        ByteStep(Absorb, Seeded(k0, k1), old(data) + input[..i], s, t, c, input[i]);
        assert old(data) + input[..i + 1] == (old(data) + input[..i]) + [input[i]];
        t := Or(t, Shifted(input[i], c % 8));
        c := c + 1;
        if c % 8 == 0 {
          s := Absorb(s, t);
          t := 0;
        }
        i := i + 1;
      }
      assert input[..i] == input;
      v, tmp, count := s, t, c;
      data := data + input;
    }

    method Finalize() returns (h: nat)
      requires Valid()
      ensures h == Sip(k0, k1, data)
    {
      hide Absorb, Part, Fed, Seeded, Finish, Tag, Or;
      h := Finish(Absorb(v, Or(tmp, Tag(count))));
    }
  }

  // ---- the unrolled form ----

  lemma FourWords(k0: nat, k1: nat, d0: nat, d1: nat, d2: nat, d3: nat)
    requires d0 < U64 && d1 < U64 && d2 < U64 && d3 < U64
    ensures Sip(k0, k1, Bytes(d0, 8) + Bytes(d1, 8) + Bytes(d2, 8) + Bytes(d3, 8)) ==
      Finish(Absorb(Absorb(Absorb(Absorb(Absorb(Seeded(k0, k1), d0), d1), d2), d3), 4 * 0x800000000000000))
  {
    hide *;
    var m := Bytes(d0, 8) + Bytes(d1, 8) + Bytes(d2, 8) + Bytes(d3, 8);
    FourFed(Absorb, Seeded(k0, k1), d0, d1, d2, d3);
    WholeWords(k0, k1, m, Absorb(Absorb(Absorb(Absorb(Seeded(k0, k1), d0), d1), d2), d3));
    TagOf32();
  }

  /** A message of whole words ends with the length alone. */
  lemma WholeWords(k0: nat, k1: nat, m: seq<byte>, v: Lanes)
    requires Fed(Absorb, Seeded(k0, k1), m) == (v, [])
    ensures Sip(k0, k1, m) == Finish(Absorb(v, Tag(|m|)))
  {
    hide Absorb, Part, Fed, Finish, Seeded, Or, Tag;
    PartOfNone();
    OrCommutes(0, Tag(|m|));
    OrZero(Tag(|m|));
  }

  lemma TagOf32()
    ensures Tag(32) == 4 * 0x800000000000000
  {
  }

  lemma FourFed<S>(f: (S, nat) -> S, s: S, d0: nat, d1: nat, d2: nat, d3: nat)
    requires d0 < U64 && d1 < U64 && d2 < U64 && d3 < U64
    ensures Fed(f, s, Bytes(d0, 8) + Bytes(d1, 8) + Bytes(d2, 8) + Bytes(d3, 8)) == (f(f(f(f(s, d0), d1), d2), d3), [])
  {
    hide *;
    NextWord(f, s, Bytes(d0, 8) + Bytes(d1, 8) + Bytes(d2, 8), d3);
    NextWord(f, s, Bytes(d0, 8) + Bytes(d1, 8), d2);
    NextWord(f, s, Bytes(d0, 8), d1);
    NextWord(f, s, [], d0);
    assert [] + Bytes(d0, 8) == Bytes(d0, 8);
    FedShort(f, s, []);
  }

  lemma NextWord<S>(f: (S, nat) -> S, s: S, m: seq<byte>, w: nat)
    requires |m| % 8 == 0 && w < U64
    ensures Fed(f, s, m + Bytes(w, 8)) == (f(Fed(f, s, m).0, w), [])
  {
    hide Fed, Bytes, Part;
    var (v, rest) := Fed(f, s, m);
    WordStep(f, s, m, v, Part(rest), |m|, w);
    FedRest(f, s, m + Bytes(w, 8));
  }

  /** v3 ^= d, two rounds, v0 ^= d. */
  method Mix(start: Lanes, d: nat) returns (s: Lanes)
    ensures s == Absorb(start, d)
  {
    hide Round, Xor;
    s := start.(v3 := Xor(start.v3, d));
    s := Round(Round(s));
    s := s.(v0 := Xor(s.v0, d));
  }

  /** The unrolled form computes the hash of the four words. */
  method SipHashUint256(k0: nat, k1: nat, d0: nat, d1: nat, d2: nat, d3: nat) returns (h: nat)
    requires d0 < U64 && d1 < U64 && d2 < U64 && d3 < U64
    ensures h == Sip(k0, k1, Bytes(d0, 8) + Bytes(d1, 8) + Bytes(d2, 8) + Bytes(d3, 8))
  {
    hide Absorb, Fed, Sip, Bytes, Round, Xor;
    var s := Lanes(Xor(0x736f6d6570736575, k0), Xor(0x646f72616e646f6d, k1),
                   Xor(0x6c7967656e657261, k0), Xor(0x7465646279746573, k1));
    s := Mix(s, d0);
    s := Mix(s, d1);
    s := Mix(s, d2);
    s := Mix(s, d3);
    s := Mix(s, 4 * 0x800000000000000);
    FourWords(k0, k1, d0, d1, d2, d3);
    s := s.(v2 := Xor(s.v2, 0xFF));
    s := Round(Round(Round(Round(s))));
    h := Xor(Xor(Xor(s.v0, s.v1), s.v2), s.v3);
  }
}
