/** Streams of bytes and of items whose own layout is not modelled, and the
    variable-length integers written to them (src/serialize.h). */
module Streams {
  import opened Common
  import opened Coins
  import opened Limbs

  /** A raw byte; or a length-prefixed byte vector, a range proof or a token id
      written as a whole. */
  datatype Item = Octet(b: byte) | Vector(v: seq<byte>) | Proof(p: RangeProof) | Token(id: TokenId)

  type Items = seq<Item>

  // ---- variable-length integers ----

  function VarTail(n: nat, flag: nat): Items
    requires flag == 0 || flag == 128
  {
    (if n > 127 then VarTail(n / 128 - 1, 128) else []) + [Octet(n % 128 + flag)]
  }

  /** A negative number ends the loop at once: only its low seven bits are written. */
  function VarInt(n: int): Items {
    if n < 0 then [Octet(n % 128)] else VarTail(n, 0)
  }

  function ReadVar(s: Items, acc: nat): (r: Option<(nat, Items)>)
    ensures r.Some? ==> |r.value.1| < |s|
  {
    if s == [] || !s[0].Octet? then None
    else
      var n := acc * 128 + s[0].b % 128;
      if s[0].b >= 128 then ReadVar(s[1..], n + 1) else Some((n, s[1..]))
  }

  lemma VarTailStep(n: nat, flag: nat)
    requires flag == 0 || flag == 128
    ensures VarTail(n, flag) == (if n > 127 then VarTail(n / 128 - 1, 128) else []) + [Octet(n % 128 + flag)]
  {
  }

  /** The flag and the seven bits of a digit. */
  lemma Digit(n: nat, flag: nat)
    requires flag == 0 || flag == 128
    ensures var b := n % 128 + flag; b < 256 && (b >= 128 <==> flag == 128) && n / 128 * 128 + b % 128 == n
  {
    if flag == 128 { ModUnique(n % 128 + flag, 1, n % 128, 128); }
  }

  lemma {:induction false} ReadVarTail(n: nat, flag: nat, rest: Items)
    requires flag == 0 || flag == 128
    ensures ReadVar(VarTail(n, flag) + rest, 0) == if flag == 0 then Some((n, rest)) else ReadVar(rest, n + 1)
  {
    hide ReadVar, VarTail;
    var b := n % 128 + flag;
    Digit(n, flag);
    VarTailStep(n, flag);
    ReadOctet(b, rest, n / 128);
    if n > 127 {
      ReadVarTail(n / 128 - 1, 128, [Octet(b)] + rest);
      assert VarTail(n, flag) + rest == VarTail(n / 128 - 1, 128) + ([Octet(b)] + rest);
    } else {
      assert VarTail(n, flag) == [Octet(b)];
    }
  }

  lemma ReadOctet(b: byte, rest: Items, acc: nat)
    ensures ReadVar([Octet(b)] + rest, acc) ==
      if b >= 128 then ReadVar(rest, acc * 128 + b % 128 + 1) else Some((acc * 128 + b % 128, rest))
  {
    assert ([Octet(b)] + rest)[1..] == rest;
  }

  /** What is read back is the number written exactly when that is not negative. */
  lemma VarIntRoundTrip(n: int, rest: Items)
    ensures ReadVar(VarInt(n) + rest, 0) == Some((if n < 0 then n % 128 else n, rest))
  {
    if n < 0 {
      assert (VarInt(n) + rest)[1..] == rest;
    } else {
      ReadVarTail(n, 0, rest);
    }
  }

  function Wrap(n: nat, m: nat): (r: nat)
    requires m > 0
    ensures r < m
  {
    n % m
  }

  /** The same number in a word that wraps around at m. */
  function ReadUint(s: Items, m: nat): (r: Option<(nat, Items)>)
    requires m > 0
    ensures r.Some? ==> r.value.0 < m && |r.value.1| < |s|
  {
    match ReadVar(s, 0)
    case None => None
    case Some((n, rest)) => Some((Wrap(n, m), rest))
  }

  lemma UintRoundTrip(n: nat, m: nat, rest: Items)
    requires n < m
    ensures ReadUint(VarInt(n) + rest, m) == Some((n, rest))
  {
    hide ReadVar, VarInt, Wrap;
    VarIntRoundTrip(n, rest);
    WrapSmall(n, m);
  }

  lemma WrapSmall(n: nat, m: nat)
    requires n < m
    ensures Wrap(n, m) == n
  {
    ModUnique(n, 0, n, m);
  }

  lemma ShiftWraps(n: nat, c: nat, m: nat)
    requires m > 0
    ensures Wrap(Wrap(n, m) * 128 + c, m) == Wrap(n * 128 + c, m)
  {
    var q, r := n / m, n % m;
    assert n == q * m + r;
    var x := r * 128 + c;
    assert x == x / m * m + x % m;
    assert n * 128 + c == (q * 128 + x / m) * m + x % m;
    ModUnique(n * 128 + c, q * 128 + x / m, x % m, m);
  }

  lemma IncrementWraps(n: nat, m: nat)
    requires m > 1
    ensures Wrap(Wrap(n, m) + 1, m) == Wrap(n + 1, m)
  {
    var q, r := n / m, n % m;
    assert n == q * m + r;
    if r + 1 < m {
      ModUnique(r + 1, 0, r + 1, m);
      ModUnique(n + 1, q, r + 1, m);
    } else {
      ModUnique(r + 1, 1, 0, m);
      assert n + 1 == (q + 1) * m;
      ModUnique(n + 1, q + 1, 0, m);
    }
  }

  /** The stream holds what a pure reader leaves, and the value is what it reads. */
  ghost predicate Agrees<T>(r: Option<T>, items: Items, spec: Option<(T, Items)>) {
    match spec
    case None => r == None
    case Some((v, rest)) => r == Some(v) && items == rest
  }

  /** What is written before the byte that follows the number acc. */
  function Before(acc: nat): Items { if acc == 0 then [] else VarTail(acc - 1, 128) }

  lemma VarTailSnoc(acc: nat, b: byte)
    ensures VarTail(acc * 128 + b % 128, if b >= 128 then 128 else 0) == Before(acc) + [Octet(b)]
  {
    hide VarTail;
    var n := acc * 128 + b % 128;
    ModUnique(n, acc, b % 128, 128);
    VarTailStep(n, if b >= 128 then 128 else 0);
  }

  /** Every number has one encoding: whatever is read came from writing it. */
  lemma {:induction false} VarIntUnique(s: Items, acc: nat)
    requires ReadVar(s, acc).Some?
    ensures var (n, rest) := ReadVar(s, acc).value; Before(acc) + s == VarInt(n) + rest
  {
    hide VarTail;
    var n := acc * 128 + s[0].b % 128;
    VarTailSnoc(acc, s[0].b);
    assert Before(acc) + s == (Before(acc) + [s[0]]) + s[1..];
    if s[0].b >= 128 {
      VarIntUnique(s[1..], n + 1);
    }
  }

  /** The bytes of t, last one first. */
  ghost predicate Backwards(t: seq<byte>, done: Items) {
    |done| == |t| && forall i :: 0 <= i < |t| ==> done[i] == Octet(t[|t| - 1 - i])
  }

  /** Each further digit takes seven bits more of the value. */
  lemma SevenBits(value: nat, n: nat, len: nat, bits: nat)
    requires n > 127 && value < Pow2(bits)
    requires if len == 0 then n == value else Mul(n + 1, Pow2(7 * len)) <= value
    ensures n / 128 >= 1 && Mul(n / 128, Pow2(7 * len + 7)) <= value && 7 * (len + 1) < bits
  {
    hide Pow2, Mul;
    var p := Pow2(7 * len);
    SmallPowers();
    Pow2Add(7, 7 * len);
    TakeSeven(value, n, p, len > 0);
    if bits <= 7 * (len + 1) { Pow2Monotonic(bits, 7 * len + 7); }
  }

  lemma TakeSeven(value: nat, n: nat, p: nat, more: bool)
    requires n > 127 && if more then Mul(n + 1, p) <= value else n == value && p == 1
    ensures Mul(n / 128, 128 * p) <= value && 128 * p <= value
  {
    var q := n / 128;
    MulMonotonic(n, n + 1, p);
    MulMonotonic(q * 128, n, p);
    MulAssociative(q, 128, p);
    MulMonotonic(1, q, 128 * p);
  }

  lemma SmallPowers()
    ensures Pow2(7) == 128 && Pow2(0) == 1
  {
  }

  /** What is still to be written once len bytes are. */
  ghost function Pending(n: int, len: nat): Items {
    if n < 0 then [Octet(n % 128)] else VarTail(n, if len == 0 then 0 else 128)
  }

  lemma DigitDone(n: int, t: seq<byte>, done: Items, b: byte)
    requires b == n % 128 + if t == [] then 0 else 128
    requires Backwards(t, done) && (t != [] ==> n >= 0)
    ensures Pending(n, |t|) + done == (if n > 127 then Pending(n / 128 - 1, |t| + 1) else []) + ([Octet(b)] + done)
    ensures Backwards(t + [b], [Octet(b)] + done)
  {
    hide VarTail;
    if n >= 0 { VarTailStep(n, if t == [] then 0 else 128); }
  }

  /** The bytes of the integer, the last one at index 0. */
  method VarDigits(value: int, bits: nat) returns (tmp: array<byte>, len: nat)
    requires bits > 0 && value < Pow2(bits)
    ensures fresh(tmp) && len < tmp.Length && |VarInt(value)| == len + 1
    ensures forall i :: 0 <= i <= len ==> VarInt(value)[i] == Octet(tmp[len - i])
  {
    hide Pow2, Mul, VarTail, Pending;
    tmp := new byte[(bits + 6) / 7];
    var n := value;
    len := 0;
    ghost var done: Items := [];
    assert Pending(value, 0) == VarInt(value) by { PendingStart(value); }
    while true
      invariant len < tmp.Length && (len > 0 ==> n >= 0)
      invariant if len == 0 then n == value else Mul(n + 1, Pow2(7 * len)) <= value
      invariant Backwards(tmp[..len], done) && VarInt(value) == Pending(n, len) + done
      decreases n
    {
      var b: byte := n % 128 + if len == 0 then 0 else 128;
      DigitDone(n, tmp[..len], done, b);
      tmp[len] := b;
      done := [Octet(b)] + done;
      assert tmp[..len + 1] == tmp[..len] + [b];
      if n <= 127 { break; }
      SevenBits(value, n, len, bits);
      n := n / 128 - 1;
      len := len + 1;
    }
  }

  lemma PendingStart(value: int)
    ensures Pending(value, 0) == VarInt(value)
  {
  }

  class Stream {
    var items: Items

    constructor (items: Items)
      ensures this.items == items
    {
      this.items := items;
    }

    method Write(item: Item)
      modifies this
      ensures items == old(items) + [item]
    {
      items := items + [item];
    }

    /** Reading past the end fails. */
    method Read() returns (r: Option<Item>)
      modifies this
      ensures old(items) == [] ==> r == None
      ensures old(items) != [] ==> r == Some(old(items)[0]) && items == old(items)[1..]
    {
      if items == [] { return None; }
      r := Some(items[0]);
      items := items[1..];
    }

    /** The temporary buffer of (bits + 6) / 7 bytes is never overrun. */
    method WriteVarInt(value: int, bits: nat)
      requires bits > 0 && value < Pow2(bits)
      modifies this
      ensures items == old(items) + VarInt(value)
    {
      hide *;
      var tmp, len := VarDigits(value, bits);
      ghost var done := VarInt(value);
      var k := len + 1;
      while k > 0
        invariant 0 <= k <= len + 1
        invariant items == old(items) + done[..len + 1 - k]
        modifies this
      {
        k := k - 1;
        Write(Octet(tmp[k]));
        assert done[len - k] == Octet(tmp[k]);
        assert done[..len + 1 - k] == done[..len - k] + [done[len - k]];
      }
      assert done[..len + 1] == done;
    }

    /** The number is kept in a word that wraps around at m. */
    method ReadVarInt(m: nat) returns (r: Option<nat>)
      requires m > 1
      modifies this
      ensures Agrees(r, items, ReadUint(old(items), m))
    {
      hide Wrap;
      var n: nat := 0;
      ghost var whole: nat := 0;
      WrapSmall(0, m);
      while true
        invariant ReadVar(old(items), 0) == ReadVar(items, whole) && n == Wrap(whole, m)
        decreases |items|
      {
        var item := Read();
        if item.None? || !item.value.Octet? { return None; }
        var ch := item.value.b;
        ShiftWraps(whole, ch % 128, m);
        whole := whole * 128 + ch % 128;
        n := Wrap(n * 128 + ch % 128, m);
        if ch >= 128 {
          IncrementWraps(whole, m);
          whole := whole + 1;
          n := Wrap(n + 1, m);
        } else {
          return Some(n);
        }
      }
    }
  }
}
