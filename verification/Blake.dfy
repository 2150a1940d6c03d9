/** BLAKE-512 streaming (src/blake.c): a block buffer and a 128-bit counter in two
    words, fed in pieces of any size. The compression function is a parameter. */
module Blake {
  import opened Common
  import opened Limbs

  const U128 := U64 * U64

  type Compression<!S> = (S, seq<byte>, nat) -> S

  /** The chained value, the counter, and what is buffered of the next block. */
  datatype State<S> = State(h: S, t: nat, tail: seq<byte>)

  /** The counter after another block. */
  function Next(t: nat): nat { (t + 1024) % U128 }

  /** The block that more completes goes into the chain. */
  function Compressed<S>(f: Compression<S>, st: State<S>, more: seq<byte>): (r: State<S>)
    ensures r.tail == []
  {
    State(f(st.h, st.tail + more, Next(st.t)), Next(st.t), [])
  }

  function Feed<S>(f: Compression<S>, st: State<S>, data: seq<byte>): (r: State<S>)
    requires |st.tail| < 128
    ensures |r.tail| < 128
    decreases |data|
  {
    if |st.tail| + |data| < 128 then st.(tail := st.tail + data)
    else
      var k := 128 - |st.tail|;
      Feed(f, Compressed(f, st, data[..k]), data[k..])
  }

  /** Updates may split a message anywhere. */
  lemma {:induction false} FeedConcat<S>(f: Compression<S>, st: State<S>, a: seq<byte>, b: seq<byte>)
    requires |st.tail| < 128
    ensures Feed(f, st, a + b) == Feed(f, Feed(f, st, a), b)
    decreases |a| + |b|
  {
    if |st.tail| + |a| < 128 {
      var mid := st.(tail := st.tail + a);
      if |st.tail| + |a| + |b| < 128 {
        assert st.tail + (a + b) == mid.tail + b;
      } else {
        var k, j := 128 - |st.tail|, 128 - |mid.tail|;
        assert st.tail + (a + b)[..k] == mid.tail + b[..j];
        assert (a + b)[k..] == b[j..];
      }
    } else {
      var k := 128 - |st.tail|;
      assert (a + b)[..k] == a[..k] && (a + b)[k..] == a[k..] + b;
      FeedConcat(f, Compressed(f, st, a[..k]), a[k..], b);
    }
  }

  // ---- the hash of a message ----

  /** The message bits consumed by the end of block i, or zero if it holds none. */
  function Counter(i: nat, total: nat): nat {
    if 1024 * i >= total then 0 else if 1024 * (i + 1) <= total then 1024 * (i + 1) else total
  }

  function Chain<S>(f: Compression<S>, h: S, p: seq<byte>, i: nat, total: nat): S
    requires |p| % 128 == 0
  {
    if p == [] then h else Chain(f, f(h, p[..128], Counter(i, total)), p[128..], i + 1, total)
  }

  /** The top n bits of ub, and a one after them. */
  function PadByte(ub: byte, n: nat): byte
    requires n < 8
  {
    match n
    case 0 => 0x80
    case 1 => ub / 0x80 * 0x80 + 0x40
    case 2 => ub / 0x40 * 0x40 + 0x20
    case 3 => ub / 0x20 * 0x20 + 0x10
    case 4 => ub / 0x10 * 0x10 + 8
    case 5 => ub / 8 * 8 + 4
    case 6 => ub / 4 * 4 + 2
    case _ => ub / 2 * 2 + 1
  }

  function BigEndian(x: nat, n: nat): (b: seq<byte>)
    ensures |b| == n
  {
    if n == 0 then [] else BigEndian(x / 256, n - 1) + [x % 256]
  }

  function Zeros(n: nat): (z: seq<byte>)
    ensures |z| == n
  {
    seq(n, _ => 0)
  }

  /** Blocks for a message of so many bytes and n bits. */
  function PaddedSize(bytes: nat, n: nat): (size: nat)
    ensures size % 128 == 0
  {
    128 * (bytes / 128 + if 8 * (bytes % 128) + n <= 894 then 1 else 2)
  }

  /** The least number of whole blocks with room for the message, two bits and the length. */
  lemma PaddedSizeLeast(bytes: nat, n: nat, size: nat)
    requires n < 8 && size % 128 == 0
    ensures 8 * size >= 8 * bytes + n + 130 <==> size >= PaddedSize(bytes, n)
  {
    var q, r, k := bytes / 128, bytes % 128, size / 128;
    assert bytes == 128 * q + r && size == 128 * k;
  }

  /** How many bytes stand between the message and its length. */
  function PadLength(bytes: nat, n: nat): (m: nat)
    requires n < 8
    ensures m >= 1 && (m == 1 ==> n < 7)
  {
    PaddedSizeLeast(bytes, n, PaddedSize(bytes, n));
    PaddedSize(bytes, n) - bytes - 16
  }

  /** What follows the message: a one bit, zeros, a one bit in the larger variant,
      and the length in bits. */
  function Padding(bytes: nat, ub: byte, n: nat, big: bool): (p: seq<byte>)
    requires n < 8
    ensures bytes + |p| == PaddedSize(bytes, n) && (bytes + |p|) % 128 == 0
  {
    var m := PadLength(bytes, n);
    var body := [PadByte(ub, n)] + Zeros(m - 1);
    body[m - 1 := body[m - 1] + if big then 1 else 0] + BigEndian(8 * bytes + n, 16)
  }

  /** The hash of a message: the chained value over its padded blocks. */
  function Hash<S>(f: Compression<S>, iv: S, msg: seq<byte>, ub: byte, n: nat, big: bool): S
    requires n < 8
  {
    Chain(f, iv, msg + Padding(|msg|, ub, n, big), 0, 8 * |msg| + n)
  }

  function Blocks(data: seq<byte>): nat { |data| / 128 }

  function Rest(data: seq<byte>): seq<byte> { data[128 * Blocks(data)..] }

  /** Feeding whole blocks walks the chain, and the counter is the bits so far. */
  lemma {:induction false} FeedChain<S>(f: Compression<S>, h: S, i: nat, data: seq<byte>, r: seq<byte>, total: nat)
    requires 1024 * i + 8 * |data| <= total < U128 && (|data| + |r|) % 128 == 0
    ensures var st, q := Feed(f, State(h, 1024 * i, []), data), Blocks(data);
      && st.t == 1024 * (i + q) && st.tail == Rest(data)
      && (|st.tail| + |r|) % 128 == 0
      && Chain(f, h, data + r, i, total) == Chain(f, st.h, st.tail + r, i + q, total)
    decreases |data|
  {
    hide Feed, Chain, Counter;
    if |data| < 128 {
      FeedShort(f, State(h, 1024 * i, []), data);
      assert [] + data == data && Rest(data) == data;
    } else {
      var h' := f(h, data[..128], 1024 * (i + 1));
      FeedChain(f, h', i + 1, data[128..], r, total);
      FeedBlock(f, h, 1024 * i, data);
      FullCounter(i, total);
      ChainBlock(f, h, data + r, i, total);
      assert (data + r)[..128] == data[..128] && (data + r)[128..] == data[128..] + r;
      RestStep(data);
    }
  }

  lemma {:induction false} FeedShort<S>(f: Compression<S>, st: State<S>, data: seq<byte>)
    requires |st.tail| + |data| < 128
    ensures Feed(f, st, data) == st.(tail := st.tail + data)
  {
  }

  lemma {:induction false} FeedBlock<S>(f: Compression<S>, h: S, t: nat, data: seq<byte>)
    requires |data| >= 128 && t + 1024 < U128
    ensures Feed(f, State(h, t, []), data) == Feed(f, State(f(h, data[..128], t + 1024), t + 1024, []), data[128..])
  {
    hide Feed, Next;
    FeedFull(f, State(h, t, []), data, 128);
    NextSmall(t);
    assert [] + data[..128] == data[..128];
  }

  lemma NextSmall(t: nat)
    requires t + 1024 < U128
    ensures Next(t) == t + 1024
  {
  }

  lemma {:induction false} FeedFull<S>(f: Compression<S>, st: State<S>, data: seq<byte>, k: nat)
    requires |st.tail| < 128 <= |st.tail| + |data| && k == 128 - |st.tail|
    ensures Feed(f, st, data) == Feed(f, Compressed(f, st, data[..k]), data[k..])
  {
    hide Compressed;
  }

  lemma FullCounter(i: nat, total: nat)
    requires 1024 * (i + 1) <= total
    ensures Counter(i, total) == 1024 * (i + 1)
  {
  }

  lemma {:induction false} ChainBlock<S>(f: Compression<S>, h: S, p: seq<byte>, i: nat, total: nat)
    requires |p| % 128 == 0 && p != []
    ensures Chain(f, h, p, i, total) == Chain(f, f(h, p[..128], Counter(i, total)), p[128..], i + 1, total)
  {
  }

  lemma RestStep(data: seq<byte>)
    requires |data| >= 128
    ensures Rest(data) == Rest(data[128..]) && Blocks(data) == Blocks(data[128..]) + 1
  {
  }

  // ---- the end of a message ----

  /** The counter set before the last block, so that the 1024 bits added for it
      leave the value it should have. */
  function Adjusted(t: nat, bits: nat): nat {
    if bits == 0 then U128 - 1024 else (t + U128 - 1024 + bits) % U128
  }

  lemma AdjustedCounter(q: nat, bits: nat)
    requires bits < 1024 && 1024 * q + bits < U128
    ensures Next(Adjusted(1024 * q, bits)) == Counter(q, 1024 * q + bits)
  {
  }

  /** A block that the padding completes. */
  lemma {:induction false} FeedLast<S>(f: Compression<S>, st: State<S>, data: seq<byte>)
    requires |st.tail| + |data| == 128 && |st.tail| < 128
    ensures Feed(f, st, data).h == f(st.h, st.tail + data, Next(st.t)) && Feed(f, st, data).tail == []
  {
    hide Feed, Next;
    var k := 128 - |st.tail|;
    assert data[..k] == data && data[k..] == [];
    FeedFull(f, st, data, k);
    FeedShort(f, Compressed(f, st, data), []);
  }

  lemma {:induction false} ChainOne<S>(f: Compression<S>, h: S, p: seq<byte>, i: nat, total: nat)
    requires |p| == 128
    ensures Chain(f, h, p, i, total) == f(h, p, Counter(i, total))
  {
    assert p[..128] == p && p[128..] == [];
  }

  /** One last block: message bits and padding. */
  lemma {:induction false} LastBlock<S>(f: Compression<S>, st: State<S>, q: nat, bits: nat, pad: seq<byte>)
    requires |st.tail| + |pad| == 128 && |st.tail| < 128 && st.t == 1024 * q && bits < 1024 && 1024 * q + bits < U128
    ensures Feed(f, st.(t := Adjusted(st.t, bits)), pad).h == Chain(f, st.h, st.tail + pad, q, 1024 * q + bits)
    ensures Feed(f, st.(t := Adjusted(st.t, bits)), pad).tail == []
  {
    hide Feed, Chain, Adjusted, Counter;
    FeedLast(f, st.(t := Adjusted(st.t, bits)), pad);
    ChainOne(f, st.h, st.tail + pad, q, 1024 * q + bits);
    AdjustedCounter(q, bits);
  }

  /** Two last blocks: the second holds padding only. */
  lemma {:induction false} LastBlocks<S>(f: Compression<S>, st: State<S>, q: nat, bits: nat, pad: seq<byte>,
          end: seq<byte>)
    requires |st.tail| + |pad| == 128 && |st.tail| < 128 && |end| == 128
    requires st.t == 1024 * q && bits < 1024 && 1024 * q + bits < U128
    ensures var mid := Feed(f, st.(t := Adjusted(st.t, bits)), pad);
      && mid.tail == []
      && Feed(f, mid.(t := U128 - 1024), end).h == Chain(f, st.h, st.tail + (pad + end), q, 1024 * q + bits)
  {
    hide Feed, Chain, Adjusted, Counter;
    var total := 1024 * q + bits;
    var mid := Feed(f, st.(t := Adjusted(st.t, bits)), pad);
    FeedLast(f, st.(t := Adjusted(st.t, bits)), pad);
    AdjustedCounter(q, bits);
    FeedLast(f, mid.(t := U128 - 1024), end);
    var p := st.tail + (pad + end);
    ChainBlock(f, st.h, p, q, total);
    assert p[..128] == st.tail + pad && p[128..] == end && [] + end == end;
    ChainOne(f, mid.h, end, q + 1, total);
    PaddingCounter(q + 1, total);
  }

  lemma PaddingCounter(i: nat, total: nat)
    requires 1024 * i >= total
    ensures Counter(i, total) == 0 && Next(U128 - 1024) == 0
  {
  }

  // ---- the context ----

  lemma CarryExact(t0: nat, t1: nat)
    requires t0 < U64 && t1 < U64
    ensures var a := (t0 + 1024) % U64;
      var b := if a < 1024 then (t1 + 1) % U64 else t1;
      b * U64 + a == Next(t1 * U64 + t0)
  {
    var t := t1 * U64 + t0;
    if t0 + 1024 < U64 {
      assert t + 1024 < U128;
    } else if t1 + 1 < U64 {
      assert t + 1024 == (t1 + 1) * U64 + (t0 + 1024 - U64);
    }
  }

  class Context<!S> {
    const f: Compression<S>
    const buf: array<byte>
    var ptr: nat
    var h: S
    var t0: nat
    var t1: nat
    const iv: S
    /** Everything fed so far. */
    ghost var msg: seq<byte>

    ghost function Abs(): State<S>
      reads this, buf
      requires Shaped()
    {
      State(h, t1 * U64 + t0, buf[..ptr])
    }

    ghost predicate Shaped()
      reads this
    {
      buf.Length == 128 && ptr < 128 && t0 < U64 && t1 < U64
    }

    ghost predicate Valid()
      reads this, buf
    {
      Shaped() && Abs() == Feed(f, State(iv, 0, []), msg)
    }

    constructor (f: Compression<S>, iv: S)
      ensures Valid() && msg == [] && this.f == f && this.iv == iv && fresh(buf)
    {
      this.f, this.iv, h := f, iv, iv;
      buf := new byte[128];
      ptr, t0, t1 := 0, 0, 0;
      msg := [];
      new;
      assert buf[..0] == [];
    }

    /** Copies data into the buffer behind what is there. */
    method Copy(data: seq<byte>)
      requires Shaped() && ptr + |data| <= 128
      modifies buf
      ensures buf[..ptr + |data|] == old(buf[..ptr]) + data
    {
      forall i | 0 <= i < |data| { buf[ptr + i] := data[i]; }
    }

    /** The state afterwards is that of feeding the data, however the loop cuts it. */
    method Absorb(data: seq<byte>)
      requires Shaped()
      modifies this`ptr, this`h, this`t0, this`t1, buf
      ensures Shaped() && Abs() == Feed(f, old(Abs()), data)
    {
      hide Feed, Next;
      if |data| < 128 - ptr {
        FeedShort(f, Abs(), data);
        Copy(data);
        ptr := ptr + |data|;
        return;
      }
      var i := 0;
      assert data[0..] == data;
      while i < |data|
        invariant 0 <= i <= |data| && Shaped()
        invariant Feed(f, Abs(), data[i..]) == Feed(f, old(Abs()), data)
      {
        var clen := if 128 - ptr > |data| - i then |data| - i else 128 - ptr;
        Step(data[i..], clen);
        assert data[i..][clen..] == data[i + clen..];
        i := i + clen;
      }
      FeedShort(f, Abs(), data[i..]);
    }

    /** One turn of the loop: copy, and compress if the block is full. */
    method Step(data: seq<byte>, clen: nat)
      requires Shaped() && 0 < clen <= |data| && clen == if 128 - ptr > |data| then |data| else 128 - ptr
      modifies this`ptr, this`h, this`t0, this`t1, buf
      ensures Shaped() && Feed(f, Abs(), data[clen..]) == Feed(f, old(Abs()), data)
    {
      hide Feed, Next;
      ghost var st := Abs();
      Copy(data[..clen]);
      ptr := ptr + clen;
      if ptr == 128 {
        FeedFull(f, st, data, clen);
        CarryExact(t0, t1);
        t0 := (t0 + 1024) % U64;
        if t0 < 1024 { t1 := (t1 + 1) % U64; }
        assert buf[..] == buf[..128];
        h := f(h, buf[..], t1 * U64 + t0);
        ptr := 0;
        assert buf[..0] == [];
      } else {
        assert data[..clen] == data && data[clen..] == [];
        FeedShort(f, st, data);
        FeedShort(f, Abs(), []);
        assert buf[..ptr] + [] == buf[..ptr];
      }
    }

    /** Pieces of any size: only their concatenation matters. */
    method Update(data: seq<byte>)
      requires Valid()
      modifies this, buf
      ensures Valid() && msg == old(msg) + data
    {
      hide Feed;
      Absorb(data);
      FeedConcat(f, State(iv, 0, []), msg, data);
      msg := msg + data;
    }

    /** The words of the counter before the last block. */
    method Adjust(bits: nat)
      requires Shaped() && t0 % 1024 == 0 && bits < 1024
      modifies this`t0, this`t1
      ensures Shaped() && Abs() == old(Abs()).(t := Adjusted(old(Abs().t), bits))
    {
      hide Adjusted;
      AdjustWords(t0, t1, bits);
      if bits == 0 {
        t0, t1 := U64 - 1024, U64 - 1;
      } else if t0 == 0 {
        t0, t1 := U64 - 1024 + bits, (t1 - 1) % U64;
      } else {
        t0 := t0 - (1024 - bits);
      }
    }

    /** Pads with the last n bits taken from ub, and gives the chained value. */
    method Close(ub: byte, n: nat, big: bool) returns (hash: S)
      requires Valid() && n < 8 && 8 * |msg| + n < U128
      modifies this, buf
      ensures hash == Hash(f, iv, old(msg), ub, n, big)
    {
      hide Feed, Chain, Padding, Hash, Adjusted, Next;
      var p0 := ptr;
      var bits := 8 * ptr + n;
      ghost var q, pad := Blocks(msg), Padding(|msg|, ub, n, big);
      ghost var st := Abs();
      Closing(f, iv, msg, ub, n, big, st);
      Words(t0, t1, q, bits);
      var tl, th := (t0 + bits) % U64, t1;
      Adjust(bits);
      if bits <= 894 {
        var u := OneTail(p0, ub, n, big, th, tl, |msg|);
        LastBlock(f, st, q, bits, pad);
        Absorb(u);
      } else {
        var u, v := TwoTails(p0, ub, n, big, th, tl, |msg|);
        LastBlocks(f, st, q, bits, u, v);
        Absorb(u);
        t0, t1 := U64 - 1024, U64 - 1;
        AllOnes();
        Absorb(v);
      }
      hash := h;
    }
  }

  lemma AllOnes()
    ensures (U64 - 1) * U64 + (U64 - 1024) == U128 - 1024
  {
  }

  lemma AdjustWords(t0: nat, t1: nat, bits: nat)
    requires t0 < U64 && t1 < U64 && t0 % 1024 == 0 && bits < 1024
    ensures bits == 0 ==> Adjusted(t1 * U64 + t0, bits) == (U64 - 1) * U64 + (U64 - 1024)
    ensures bits != 0 && t0 == 0 ==> Adjusted(t1 * U64 + t0, bits) == (t1 - 1) % U64 * U64 + (U64 - 1024 + bits)
    ensures bits != 0 && t0 != 0 ==> t0 >= 1024 && Adjusted(t1 * U64 + t0, bits) == t1 * U64 + (t0 - (1024 - bits))
  {
  }

  lemma Words(t0: nat, t1: nat, q: nat, bits: nat)
    requires t0 < U64 && t1 < U64 && t1 * U64 + t0 == 1024 * q && bits < 1024
    ensures t0 % 1024 == 0 && t0 + bits < U64
    ensures t1 * U64 + (t0 + bits) % U64 == 1024 * q + bits
  {
    var m := U64 / 1024;
    assert t0 == 1024 * (q - t1 * m);
  }

  /** Where the message ends, and what the chain over the padded message then needs. */
  lemma {:induction false} Closing<S>(f: Compression<S>, iv: S, msg: seq<byte>, ub: byte, n: nat, big: bool,
          st: State<S>)
    requires n < 8 && 8 * |msg| + n < U128 && st == Feed(f, State(iv, 0, []), msg)
    ensures var q, pad := Blocks(msg), Padding(|msg|, ub, n, big);
      && st.t == 1024 * q && |st.tail| == |msg| % 128 && 8 * |msg| + n == 1024 * q + 8 * |st.tail| + n
      && (|st.tail| + |pad|) % 128 == 0
      && Hash(f, iv, msg, ub, n, big) == Chain(f, st.h, st.tail + pad, q, 8 * |msg| + n)
  {
    hide Feed, Padding, Chain;
    FeedChain(f, iv, 0, msg, Padding(|msg|, ub, n, big), 8 * |msg| + n);
  }

  lemma {:induction false} BigEndianConcat(x: nat, y: nat, m: nat, n: nat)
    requires y < Pow2(8 * n)
    ensures BigEndian(x * Pow2(8 * n) + y, m + n) == BigEndian(x, m) + BigEndian(y, n)
    decreases n
  {
    if n > 0 {
      hide Pow2;
      ByteOff(x, y, n);
      BigEndianConcat(x, y / 256, m, n - 1);
      assert BigEndian(x, m) + BigEndian(y, n) == (BigEndian(x, m) + BigEndian(y / 256, n - 1)) + [y % 256];
    } else {
      assert x * 1 + 0 == x;
    }
  }

  /** Taking the last byte off x * 256^n + y. */
  lemma ByteOff(x: nat, y: nat, n: nat)
    requires n > 0 && y < Pow2(8 * n)
    ensures var z := x * Pow2(8 * n) + y; z >= 0 && z % 256 == y % 256 && z / 256 == x * Pow2(8 * n - 8) + y / 256
    ensures y / 256 < Pow2(8 * n - 8)
  {
    hide Pow2;
    var p := Pow2(8 * n - 8);
    EightBits();
    Pow2Add(8, 8 * n - 8);
    assert x * (256 * p) == 256 * (x * p);
    MulMonotonic(0, x, p);
    ModUnique(256 * (x * p) + y, x * p + y / 256, y % 256, 256);
  }

  lemma EightBits()
    ensures Pow2(8) == 256
  {
  }

  lemma LengthBytes(th: nat, tl: nat)
    requires tl < U64
    ensures BigEndian(th * U64 + tl, 16) == BigEndian(th, 8) + BigEndian(tl, 8)
  {
    hide BigEndian;
    Pow2Limb();
    Pow2Add(32, 32);
    BigEndianConcat(th, tl, 8, 8);
  }

  /** The last block when the padding fits into it. */
  method OneTail(ptr: nat, ub: byte, n: nat, big: bool, th: nat, tl: nat, ghost bytes: nat) returns (tail: seq<byte>)
    requires n < 8 && ptr == bytes % 128 && 8 * ptr + n <= 894 && tl < U64 && th * U64 + tl == 8 * bytes + n
    ensures tail == Padding(bytes, ub, n, big)
  {
    hide BigEndian, PadByte, Or;
    var u := new byte[128];
    u[ptr] := PadByte(ub, n);
    forall i | ptr < i < 112 { u[i] := 0; }
    if ptr == 111 { PadParity(ub, n); }
    if big {
      EvenOrOne(u[111]);
      u[111] := Or(u[111], 1);
    }
    WriteLength(u, th, tl);
    LengthBytes(th, tl);
    TailLength(bytes, n);
    tail := u[ptr..];
    assert tail[..112 - ptr] == ([PadByte(ub, n)] + Zeros(111 - ptr))[111 - ptr := u[111]];
    assert tail[112 - ptr..] == u[112..];
  }

  /** The two words of the length at the end of a block. */
  method WriteLength(u: array<byte>, th: nat, tl: nat)
    requires u.Length == 128
    modifies u
    ensures forall i :: 0 <= i < 112 ==> u[i] == old(u[i])
    ensures u[112..] == BigEndian(th, 8) + BigEndian(tl, 8)
  {
    hide BigEndian;
    var high, low := BigEndian(th, 8), BigEndian(tl, 8);
    forall i | 0 <= i < 8 { u[112 + i] := high[i]; }
    forall i | 0 <= i < 8 { u[120 + i] := low[i]; }
  }

  lemma EvenOrOne(x: nat)
    requires x % 2 == 0
    ensures Or(x, 1) == x + 1
  {
    assert Pow2(1) == 2;
    OrDisjoint(x, 1, 1);
  }

  lemma PadParity(ub: byte, n: nat)
    requires n < 7
    ensures PadByte(ub, n) % 2 == 0
  {
    match n {
      case 0 =>
      case 1 => ModUnique(PadByte(ub, 1), ub / 0x80 * 0x40 + 0x20, 0, 2);
      case 2 => ModUnique(PadByte(ub, 2), ub / 0x40 * 0x20 + 0x10, 0, 2);
      case 3 => ModUnique(PadByte(ub, 3), ub / 0x20 * 0x10 + 8, 0, 2);
      case 4 => ModUnique(PadByte(ub, 4), ub / 0x10 * 8 + 4, 0, 2);
      case 5 => ModUnique(PadByte(ub, 5), ub / 8 * 4 + 2, 0, 2);
      case 6 => ModUnique(PadByte(ub, 6), ub / 4 * 2 + 1, 0, 2);
    }
  }

  lemma TailLength(bytes: nat, n: nat)
    requires n < 8
    ensures PadLength(bytes, n) == (if 8 * (bytes % 128) + n <= 894 then 112 else 240) - bytes % 128
  {
  }

  /** The last two blocks when the length needs a block of its own. */
  method TwoTails(ptr: nat, ub: byte, n: nat, big: bool, th: nat, tl: nat, ghost bytes: nat)
    returns (tail: seq<byte>, end: seq<byte>)
    requires n < 8 && ptr == bytes % 128 && 8 * ptr + n > 894 && tl < U64 && th * U64 + tl == 8 * bytes + n
    ensures |tail| == 128 - ptr && |end| == 128 && tail + end == Padding(bytes, ub, n, big)
  {
    hide BigEndian, PadByte, PadLength;
    var u := new byte[128];
    u[ptr] := PadByte(ub, n);
    forall i | ptr < i < 128 { u[i] := 0; }
    tail := u[ptr..];
    assert tail == [PadByte(ub, n)] + Zeros(127 - ptr);
    forall i | 0 <= i < 112 { u[i] := 0; }
    if big { u[111] := 1; }
    var high, low := BigEndian(th, 8), BigEndian(tl, 8);
    forall i | 0 <= i < 8 { u[112 + i] := high[i]; }
    forall i | 0 <= i < 8 { u[120 + i] := low[i]; }
    end := u[..];
    assert end == Zeros(111) + [if big then 1 else 0] + (high + low);
    LengthBytes(th, tl);
    TwoTailsPad(bytes, ub, n, big, high + low);
  }

  lemma TwoTailsPad(bytes: nat, ub: byte, n: nat, big: bool, length: seq<byte>)
    requires n < 8 && 8 * (bytes % 128) + n > 894 && length == BigEndian(8 * bytes + n, 16)
    ensures var ptr := bytes % 128;
      ([PadByte(ub, n)] + Zeros(127 - ptr)) + (Zeros(111) + [if big then 1 else 0] + length)
      == Padding(bytes, ub, n, big)
  {
    hide BigEndian, PadByte, PadLength;
    TailLength(bytes, n);
    var ptr, last := bytes % 128, if big then 1 else 0;
    var body := [PadByte(ub, n)] + Zeros(239 - ptr);
    assert body[239 - ptr := last] == [PadByte(ub, n)] + Zeros(127 - ptr) + (Zeros(111) + [last]);
  }
}
