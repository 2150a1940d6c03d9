/** The compact form of outputs in the coins database (src/compressor.h,
    src/compressor.cpp): amounts, scripts and the two markers. */
module OutputCodec {
  import opened Common
  import opened Coins
  import opened Streams
  import opened Amounts
  import opened Limbs

  // ---- scripts ----

  const SPECIAL_SCRIPTS := 6
  const MAX_SCRIPT_SIZE := 10000
  const OP_RETURN := 0x6a
  const OP_DUP := 0x76
  const OP_EQUAL := 0x87
  const OP_EQUALVERIFY := 0x88
  const OP_HASH160 := 0xa9
  const OP_CHECKSIG := 0xac

  /** Public key arithmetic is done by another library: whether a key is on the
      curve, and the 65-byte form of a 33-byte key. */
  datatype Curve = Curve(fullyValid: seq<byte> -> bool, decompress: seq<byte> -> Option<seq<byte>>)

  /** A valid key is found again from its first coordinate and the parity of the second. */
  ghost predicate Lawful(c: Curve) {
    && (forall k {:trigger c.decompress(k)} :: c.decompress(k).Some? ==> |c.decompress(k).value| == 65)
    && (forall k {:trigger c.fullyValid(k)} :: |k| == 65 && k[0] == 4 && c.fullyValid(k) ==>
          c.decompress([2 + k[64] % 2] + k[1..33]) == Some(k))
  }

  predicate IsToKeyID(s: seq<byte>) {
    && |s| == 25 && s[0] == OP_DUP && s[1] == OP_HASH160 && s[2] == 20
    && s[23] == OP_EQUALVERIFY && s[24] == OP_CHECKSIG
  }

  predicate IsToScriptID(s: seq<byte>) {
    |s| == 23 && s[0] == OP_HASH160 && s[1] == 20 && s[22] == OP_EQUAL
  }

  predicate IsToShortKey(s: seq<byte>) {
    |s| == 35 && s[0] == 33 && s[34] == OP_CHECKSIG && (s[1] == 2 || s[1] == 3)
  }

  predicate IsToLongKey(c: Curve, s: seq<byte>) {
    |s| == 67 && s[0] == 65 && s[66] == OP_CHECKSIG && s[1] == 4 && c.fullyValid(s[1..66])
  }

  function Compress(c: Curve, s: seq<byte>): Option<seq<byte>> {
    if IsToKeyID(s) then Some([0] + s[3..23])
    else if IsToScriptID(s) then Some([1] + s[2..22])
    else if IsToShortKey(s) then Some([s[1]] + s[2..34])
    else if IsToLongKey(c, s) then Some([4 + s[65] % 2] + s[2..34])
    else None
  }

  function SpecialSize(n: nat): nat {
    if n == 0 || n == 1 then 20 else if n < 6 then 32 else 0
  }

  /** A key that cannot be decompressed leaves the script as it was, empty. */
  function Decompress(c: Curve, n: nat, v: seq<byte>): seq<byte>
    requires n < SPECIAL_SCRIPTS && |v| == SpecialSize(n)
  {
    if n == 0 then [OP_DUP, OP_HASH160, 20] + v + [OP_EQUALVERIFY, OP_CHECKSIG]
    else if n == 1 then [OP_HASH160, 20] + v + [OP_EQUAL]
    else if n == 2 || n == 3 then [33, n] + v + [OP_CHECKSIG]
    else
      match c.decompress([n - 2] + v)
      case None => []
      case Some(key) => [65] + key + [OP_CHECKSIG]
  }

  lemma DecompressInvertsCompress(c: Curve, s: seq<byte>)
    requires Lawful(c) && Compress(c, s).Some?
    ensures var out := Compress(c, s).value;
      out != [] && out[0] < SPECIAL_SCRIPTS && |out| == 1 + SpecialSize(out[0]) && Decompress(c, out[0], out[1..]) == s
  {
    var out := Compress(c, s).value;
    if IsToKeyID(s) {
      assert out[1..] == s[3..23];
    } else if IsToScriptID(s) {
      assert out[1..] == s[2..22];
    } else if IsToShortKey(s) {
      assert out[1..] == s[2..34];
    } else {
      var key := s[1..66];
      assert out[1..] == s[2..34] == key[1..33];
      assert c.decompress([2 + key[64] % 2] + key[1..33]) == Some(key);
    }
  }

  // ---- flat bytes ----

  function Octets(v: seq<byte>): (s: Items)
    ensures |s| == |v|
  {
    if v == [] then [] else [Octet(v[0])] + Octets(v[1..])
  }

  function ReadFlat(s: Items, n: nat): (r: Option<(seq<byte>, Items)>)
    ensures r.Some? ==> |r.value.0| == n
  {
    if n == 0 then Some(([], s))
    else if s == [] || !s[0].Octet? then None
    else
      match ReadFlat(s[1..], n - 1)
      case None => None
      case Some((v, rest)) => Some(([s[0].b] + v, rest))
  }

  lemma {:induction false} ReadFlatOctets(v: seq<byte>, rest: Items)
    ensures ReadFlat(Octets(v) + rest, |v|) == Some((v, rest))
  {
    if v == [] {
      assert Octets(v) + rest == rest;
    } else {
      hide ReadFlat;
      ReadFlatOctets(v[1..], rest);
      var tail := Octets(v[1..]) + rest;
      assert Octets(v) + rest == [Octet(v[0])] + tail;
      FlatStep(v[0], tail, |v| - 1);
      assert v == [v[0]] + v[1..];
    }
  }

  lemma FlatStep(b: byte, s: Items, n: nat)
    requires ReadFlat(s, n).Some?
    ensures ReadFlat([Octet(b)] + s, n + 1) == Some(([b] + ReadFlat(s, n).value.0, ReadFlat(s, n).value.1))
  {
    assert ([Octet(b)] + s)[1..] == s;
  }

  /** A script's own size field has 32 bits. */
  predicate Sized(s: seq<byte>) { |s| + SPECIAL_SCRIPTS < LIMB }

  function WriteScript(c: Curve, s: seq<byte>): Items {
    match Compress(c, s)
    case Some(out) => Octets(out)
    case None => VarInt(|s| + SPECIAL_SCRIPTS) + Octets(s)
  }

  function ReadScript(c: Curve, s: Items): Option<(seq<byte>, Items)> {
    match ReadUint(s, LIMB)
    case None => None
    case Some((n, rest)) =>
      if n < SPECIAL_SCRIPTS then
        match ReadFlat(rest, SpecialSize(n)) {
          case None => None
          case Some((v, rest')) => Some((Decompress(c, n, v), rest'))
        }
      else
        match ReadFlat(rest, n - SPECIAL_SCRIPTS) {
          case None => None
          case Some((v, rest')) => Some((if |v| > MAX_SCRIPT_SIZE then [OP_RETURN] else v, rest'))
        }
  }

  /** Scripts of up to MAX_SCRIPT_SIZE bytes come back; longer ones come back as a
      single OP_RETURN. In both cases exactly the bytes written are read. */
  lemma ScriptRoundTrip(c: Curve, s: seq<byte>, rest: Items)
    requires Lawful(c) && Sized(s)
    ensures ReadScript(c, WriteScript(c, s) + rest) == Some((if |s| > MAX_SCRIPT_SIZE then [OP_RETURN] else s, rest))
  {
    hide Lawful, Decompress, ReadUint, ReadFlat, VarInt;
    match Compress(c, s) {
      case Some(out) =>
        DecompressInvertsCompress(c, s);
        OneOctet(out, rest);
        ReadFlatOctets(out[1..], rest);
      case None =>
        UintRoundTrip(|s| + SPECIAL_SCRIPTS, LIMB, Octets(s) + rest);
        assert WriteScript(c, s) + rest == VarInt(|s| + SPECIAL_SCRIPTS) + (Octets(s) + rest);
        ReadFlatOctets(s, rest);
    }
  }

  /** The first byte of a special script is read as a number. */
  lemma OneOctet(out: seq<byte>, rest: Items)
    requires out != [] && out[0] < 128
    ensures ReadUint(Octets(out) + rest, LIMB) == Some((out[0], Octets(out[1..]) + rest))
    ensures ReadUint(Octets(out) + rest, U64) == Some((out[0], Octets(out[1..]) + rest))
  {
    hide ReadVar, Wrap;
    var tail := Octets(out[1..]) + rest;
    assert Octets(out) + rest == [Octet(out[0])] + tail;
    ReadOctet(out[0], tail, 0);
    WrapSmall(out[0], LIMB);
    WrapSmall(out[0], U64);
  }

  // ---- outputs ----

  /** The range proof, or an empty one. */
  function Bulletproof(o: TxOut): RangeProof {
    if o.proof.Some? then o.proof.value else []
  }

  /** Equality of outputs. */
  predicate SameOutput(a: TxOut, b: TxOut) {
    && a.value == b.value && a.script == b.script
    && a.ephemeralKey == b.ephemeralKey && a.outputKey == b.outputKey && a.spendingKey == b.spendingKey
    && Bulletproof(a) == Bulletproof(b) && a.tokenId == b.tokenId && a.data == b.data
  }

  predicate HasTokenData(o: TxOut) { o.data != [] || o.tokenId.token != 0 }

  predicate IsBLSCT(o: TxOut) { o.ephemeralKey != [] || o.spendingKey != [] || o.outputKey != [] }

  /** Whether the output is written in one of the two forms with a proof. */
  predicate Marked(o: TxOut) { HasTokenData(o) || IsBLSCT(o) }

  /** The output as it is read: a proof is present exactly in the forms that hold one. */
  function Normal(o: TxOut): (r: TxOut)
    ensures o.IsNull() <==> r.IsNull()
  {
    o.(proof := if Marked(o) then Some(Bulletproof(o)) else None)
  }

  function ToWord(value: int): nat { Word(Compressed(Word(value))) }

  function FromWord(x: nat): int {
    var w := Word(Decompressed(x));
    if w < U64 / 2 then w else w - U64
  }

  function Blinded(o: TxOut): Items {
    VarInt(ToWord(o.value)) +
    [Vector(o.ephemeralKey), Vector(o.outputKey), Vector(o.spendingKey), Proof(Bulletproof(o))]
  }

  /** All but the script. */
  function WriteHead(o: TxOut): Items {
    if HasTokenData(o) then VarInt(TOKEN_MARKER) + Blinded(o) + [Vector(o.data), Token(o.tokenId)]
    else if IsBLSCT(o) then VarInt(BLSCT_MARKER) + Blinded(o)
    else VarInt(ToWord(o.value))
  }

  function WriteOut(c: Curve, o: TxOut): Items { WriteHead(o) + WriteScript(c, o.script) }

  function ReadBlinded(s: Items): Option<(TxOut, Items)> {
    match ReadUint(s, U64)
    case None => None
    case Some((x, r)) =>
      if |r| < 4 || !r[0].Vector? || !r[1].Vector? || !r[2].Vector? || !r[3].Proof? then None
      else
        Some((NULL_TXOUT.(value := FromWord(x), ephemeralKey := r[0].v, outputKey := r[1].v,
                          spendingKey := r[2].v, proof := Some(r[3].p)), r[4..]))
  }

  function ReadTokenData(o: TxOut, r: Items): Option<(TxOut, Items)> {
    if |r| < 2 || !r[0].Vector? || !r[1].Token? then None
    else Some((o.(data := r[0].v, tokenId := r[1].id), r[2..]))
  }

  function ReadHead(s: Items): Option<(TxOut, Items)> {
    match ReadUint(s, U64)
    case None => None
    case Some((x, r)) =>
      if x == BLSCT_MARKER then ReadBlinded(r)
      else if x == TOKEN_MARKER then
        match ReadBlinded(r) {
          case None => None
          case Some((o, r')) => ReadTokenData(o, r')
        }
      else Some((NULL_TXOUT.(value := FromWord(x)), r))
  }

  function ReadOut(c: Curve, s: Items): Option<(TxOut, Items)> {
    match ReadHead(s)
    case None => None
    case Some((o, r)) =>
      match ReadScript(c, r)
      case None => None
      case Some((script, rest)) => Some((o.(script := script), rest))
  }

  predicate IsMoney(v: int) { 0 <= v <= MAX_MONEY }

  /** What a caller can check before writing. A plain output must carry neither a
      proof nor the ambiguous amount; a sub id needs a token or data beside it. */
  predicate Faithful(o: TxOut) {
    && |o.script| <= MAX_SCRIPT_SIZE
    && (HasTokenData(o) || o.tokenId.subid == NO_TOKEN.subid)
    && (!HasTokenData(o) && !IsBLSCT(o) ==> Bulletproof(o) == [] && o.value != AMBIGUOUS_AMOUNT)
  }

  lemma WordsRoundTrip(value: int)
    requires IsMoney(value)
    ensures ToWord(value) == Compressed(value) < U64 && FromWord(ToWord(value)) == value
  {
    hide Compressed, Decompressed;
    CompressedFits(value);
    DecompressInverts(value);
  }

  lemma BlindedRoundTrip(o: TxOut, rest: Items)
    requires IsMoney(o.value)
    ensures var r := ReadBlinded(Blinded(o) + rest);
      && r.Some? && r.value.0.proof.Some? && r.value.1 == rest
      && SameOutput(r.value.0, o.(script := [], data := [], tokenId := NO_TOKEN))
  {
    hide ReadUint, VarInt, ToWord, FromWord;
    WordsRoundTrip(o.value);
    var x := ToWord(o.value);
    var tail := [Vector(o.ephemeralKey), Vector(o.outputKey), Vector(o.spendingKey), Proof(Bulletproof(o))] + rest;
    assert Blinded(o) + rest == VarInt(x) + tail;
    UintRoundTrip(x, U64, tail);
    assert tail[4..] == rest;
  }

  lemma TokenRoundTrip(c: Curve, o: TxOut, rest: Items)
    requires Lawful(c) && Sized(o.script) && IsMoney(o.value) && HasTokenData(o)
    ensures var r := ReadOut(c, WriteOut(c, o) + rest);
      r.Some? && r.value.0.proof.Some? && (SameOutput(r.value.0, o) <==> Faithful(o)) && r.value.1 == rest
  {
    hide ReadUint, VarInt, ReadScript, WriteScript, ReadBlinded, Blinded, Lawful;
    var script := WriteScript(c, o.script) + rest;
    var tail := [Vector(o.data), Token(o.tokenId)] + script;
    assert WriteOut(c, o) + rest == VarInt(TOKEN_MARKER) + (Blinded(o) + tail);
    UintRoundTrip(TOKEN_MARKER, U64, Blinded(o) + tail);
    BlindedRoundTrip(o, tail);
    assert tail[2..] == script;
    ScriptRoundTrip(c, o.script, rest);
  }

  lemma BlsctRoundTrip(c: Curve, o: TxOut, rest: Items)
    requires Lawful(c) && Sized(o.script) && IsMoney(o.value) && !HasTokenData(o) && IsBLSCT(o)
    ensures var r := ReadOut(c, WriteOut(c, o) + rest);
      r.Some? && r.value.0.proof.Some? && (SameOutput(r.value.0, o) <==> Faithful(o)) && r.value.1 == rest
  {
    hide ReadUint, VarInt, ReadScript, WriteScript, ReadBlinded, Blinded, Lawful;
    var script := WriteScript(c, o.script) + rest;
    assert WriteOut(c, o) + rest == VarInt(BLSCT_MARKER) + (Blinded(o) + script);
    UintRoundTrip(BLSCT_MARKER, U64, Blinded(o) + script);
    BlindedRoundTrip(o, script);
    ScriptRoundTrip(c, o.script, rest);
  }

  lemma PlainRoundTrip(c: Curve, o: TxOut, rest: Items)
    requires Lawful(c) && Sized(o.script) && IsMoney(o.value) && !HasTokenData(o) && !IsBLSCT(o)
             && o.value != AMBIGUOUS_AMOUNT
    ensures var r := ReadOut(c, WriteOut(c, o) + rest);
      r.Some? && r.value.0.proof.None? && (SameOutput(r.value.0, o) <==> Faithful(o)) && r.value.1 == rest
  {
    hide ReadUint, VarInt, ReadScript, WriteScript, ToWord, FromWord, Lawful, Compressed;
    var script := WriteScript(c, o.script) + rest;
    var x := ToWord(o.value);
    WordsRoundTrip(o.value);
    MarkersExact(o.value);
    assert WriteOut(c, o) + rest == VarInt(x) + script;
    UintRoundTrip(x, U64, script);
    ScriptRoundTrip(c, o.script, rest);
  }

  /** No number of 32 bits is the compressed form of the ambiguous amount. */
  lemma NotAmbiguous(n: nat)
    requires n < LIMB
    ensures FromWord(n) != AMBIGUOUS_AMOUNT
  {
    hide Compressed, Decompressed;
    DecompressedBound(n);
    CompressInverts(n);
    MarkersExact(Decompressed(n));
  }

  /** The number at the head of a script has 32 bits, in either form of the script. */
  lemma ScriptNumber(c: Curve, s: seq<byte>, rest: Items)
    requires Lawful(c) && Sized(s)
    ensures ReadUint(WriteScript(c, s) + rest, U64).Some?
    ensures ReadUint(WriteScript(c, s) + rest, U64).value.0 < LIMB
  {
    hide Lawful, ReadUint, VarInt;
    match Compress(c, s) {
      case Some(out) =>
        DecompressInvertsCompress(c, s);
        OneOctet(out, rest);
      case None =>
        var n := |s| + SPECIAL_SCRIPTS;
        UintRoundTrip(n, U64, Octets(s) + rest);
        assert WriteScript(c, s) + rest == VarInt(n) + (Octets(s) + rest);
    }
  }

  /** Where the head of a script is taken for the amount of a blinded output, that
      amount is not the ambiguous one, whatever follows is taken for. */
  lemma ScriptAsBlinded(c: Curve, s: seq<byte>, rest: Items)
    requires Lawful(c) && Sized(s)
    ensures var x := ReadUint(WriteScript(c, s) + rest, U64); x.Some? && FromWord(x.value.0) != AMBIGUOUS_AMOUNT
    ensures var r := ReadBlinded(WriteScript(c, s) + rest); r.Some? ==> r.value.0.value != AMBIGUOUS_AMOUNT
  {
    hide Lawful, ReadUint, WriteScript, FromWord;
    ScriptNumber(c, s, rest);
    NotAmbiguous(ReadUint(WriteScript(c, s) + rest, U64).value.0);
  }

  /** The ambiguous amount is taken for a marker: the head of the script is then
      read as the amount, and some other amount comes back, or nothing. */
  lemma AmbiguousFails(c: Curve, o: TxOut, rest: Items)
    requires Lawful(c) && Sized(o.script) && !HasTokenData(o) && !IsBLSCT(o) && o.value == AMBIGUOUS_AMOUNT
    ensures var r := ReadOut(c, WriteOut(c, o) + rest);
      r.Some? ==> r.value.0.value != o.value
  {
    hide ReadUint, VarInt, ReadScript, WriteScript, ToWord, Lawful, Compressed, ReadBlinded;
    var script := WriteScript(c, o.script) + rest;
    WordsRoundTrip(o.value);
    MarkersExact(o.value);
    assert WriteOut(c, o) + rest == VarInt(TOKEN_MARKER) + script;
    UintRoundTrip(TOKEN_MARKER, U64, script);
    ScriptAsBlinded(c, o.script, rest);
  }

  /** An output is read back equal exactly when it is faithful, and then exactly
      the items written are read. */
  lemma OutputRoundTrip(c: Curve, o: TxOut, rest: Items)
    requires Lawful(c) && Sized(o.script) && IsMoney(o.value)
    ensures var r := ReadOut(c, WriteOut(c, o) + rest);
      && (r.Some? && SameOutput(r.value.0, o) <==> Faithful(o))
      && (Faithful(o) ==> r.value.0 == Normal(o) && r.value.1 == rest)
  {
    hide ReadOut, WriteOut, Lawful;
    if HasTokenData(o) {
      TokenRoundTrip(c, o, rest);
    } else if IsBLSCT(o) {
      BlsctRoundTrip(c, o, rest);
    } else if o.value != AMBIGUOUS_AMOUNT {
      PlainRoundTrip(c, o, rest);
    } else {
      AmbiguousFails(c, o, rest);
    }
  }

  // ---- the same on streams ----

  method WriteOctets(s: Stream, v: seq<byte>)
    modifies s
    ensures s.items == old(s.items) + Octets(v)
  {
    var i := 0;
    assert v[0..] == v;
    while i < |v|
      invariant 0 <= i <= |v|
      invariant s.items + Octets(v[i..]) == old(s.items) + Octets(v)
    {
      ghost var before := s.items;
      s.Write(Octet(v[i]));
      assert v[i..][1..] == v[i + 1..];
      assert before + Octets(v[i..]) == s.items + Octets(v[i + 1..]);
      i := i + 1;
    }
  }

  method ReadOctets(s: Stream, n: nat) returns (r: Option<seq<byte>>)
    modifies s
    ensures match ReadFlat(old(s.items), n)
            case None => r == None
            case Some((v, rest)) => r == Some(v) && s.items == rest
  {
    var v: seq<byte> := [];
    var k := n;
    JoinedStep([], [], ReadFlat(s.items, n));
    while k > 0
      invariant 0 <= k
      invariant ReadFlat(old(s.items), n) == Joined(v, ReadFlat(s.items, k))
    {
      var item := s.Read();
      if item.None? || !item.value.Octet? { return None; }
      JoinedStep(v, [item.value.b], ReadFlat(s.items, k - 1));
      v := v + [item.value.b];
      k := k - 1;
    }
    assert v + [] == v;
    r := Some(v);
  }

  method SerializeScript(c: Curve, s: Stream, script: seq<byte>)
    requires Sized(script)
    modifies s
    ensures s.items == old(s.items) + WriteScript(c, script)
  {
    hide Octets, VarInt;
    var compr := Compress(c, script);
    if compr.Some? {
      WriteOctets(s, compr.value);
    } else {
      Pow2Limb();
      s.WriteVarInt(|script| + SPECIAL_SCRIPTS, 32);
      WriteOctets(s, script);
    }
  }

  method UnserializeScript(c: Curve, s: Stream) returns (script: Option<seq<byte>>)
    modifies s
    ensures Agrees(script, s.items, ReadScript(c, old(s.items)))
  {
    hide ReadUint, ReadFlat, Decompress;
    var size := s.ReadVarInt(LIMB);
    if size.None? { return None; }
    var n := size.value;
    if n < SPECIAL_SCRIPTS {
      var vch := ReadOctets(s, SpecialSize(n));
      if vch.None? { return None; }
      return Some(Decompress(c, n, vch.value));
    }
    n := n - SPECIAL_SCRIPTS;
    var v := ReadOctets(s, n);
    if v.None? { return None; }
    script := Some(if n > MAX_SCRIPT_SIZE then [OP_RETURN] else v.value);
  }

  lemma WordPow2()
    ensures U64 == Pow2(64)
  {
    Pow2Limb();
    Pow2Add(32, 32);
  }

  method WriteAmount(s: Stream, value: int)
    modifies s
    ensures s.items == old(s.items) + VarInt(ToWord(value))
  {
    hide VarInt, Compressed;
    var x := CompressAmount(Word(value));
    WordPow2();
    s.WriteVarInt(x, 64);
  }

  method WriteBlinded(s: Stream, o: TxOut)
    modifies s
    ensures s.items == old(s.items) + Blinded(o)
  {
    hide VarInt, ToWord;
    WriteAmount(s, o.value);
    s.Write(Vector(o.ephemeralKey));
    s.Write(Vector(o.outputKey));
    s.Write(Vector(o.spendingKey));
    s.Write(Proof(Bulletproof(o)));
  }

  method SerializeHead(s: Stream, o: TxOut)
    modifies s
    ensures s.items == old(s.items) + WriteHead(o)
  {
    hide VarInt, Blinded, ToWord;
    WordPow2();
    if |o.data| > 0 || o.tokenId.token != 0 {
      s.WriteVarInt(TOKEN_MARKER, 64);
      WriteBlinded(s, o);
      s.Write(Vector(o.data));
      s.Write(Token(o.tokenId));
    } else if IsBLSCT(o) {
      s.WriteVarInt(BLSCT_MARKER, 64);
      WriteBlinded(s, o);
    } else {
      WriteAmount(s, o.value);
    }
  }

  method SerializeOutput(c: Curve, s: Stream, o: TxOut)
    requires Sized(o.script)
    modifies s
    ensures s.items == old(s.items) + WriteOut(c, o)
  {
    hide WriteHead, WriteScript;
    SerializeHead(s, o);
    SerializeScript(c, s, o.script);
  }

  method AmountOf(x: nat) returns (value: int)
    requires x < U64
    ensures value == FromWord(x)
  {
    hide Decompressed;
    value := DecompressAmount(x);
    if value >= U64 / 2 { value := value - U64; }
  }

  method UnserializeBlinded(s: Stream) returns (o: Option<TxOut>)
    modifies s
    ensures Agrees(o, s.items, ReadBlinded(old(s.items)))
  {
    hide ReadUint, FromWord;
    var x := s.ReadVarInt(U64);
    if x.None? { return None; }
    var value := AmountOf(x.value);
    var ephemeral := s.Read();
    if ephemeral.None? || !ephemeral.value.Vector? { return None; }
    var output := s.Read();
    if output.None? || !output.value.Vector? { return None; }
    var spending := s.Read();
    if spending.None? || !spending.value.Vector? { return None; }
    var proof := s.Read();
    if proof.None? || !proof.value.Proof? { return None; }
    o := Some(NULL_TXOUT.(value := value, ephemeralKey := ephemeral.value.v, outputKey := output.value.v,
                          spendingKey := spending.value.v, proof := Some(proof.value.p)));
  }

  method UnserializeOutput(c: Curve, s: Stream) returns (txout: Option<TxOut>)
    modifies s
    ensures Agrees(txout, s.items, ReadOut(c, old(s.items)))
  {
    hide ReadUint, ReadScript, ReadBlinded, FromWord;
    var o := NULL_TXOUT;
    var x := s.ReadVarInt(U64);
    if x.None? { return None; }
    if x.value == BLSCT_MARKER {
      var b := UnserializeBlinded(s);
      if b.None? { return None; }
      o := b.value;
    } else if x.value == TOKEN_MARKER {
      var b := UnserializeBlinded(s);
      if b.None? { return None; }
      var data := s.Read();
      if data.None? || !data.value.Vector? { return None; }
      var id := s.Read();
      if id.None? || !id.value.Token? { return None; }
      o := b.value.(data := data.value.v, tokenId := id.value.id);
    } else {
      var value := AmountOf(x.value);
      o := o.(value := value);
    }
    var script := UnserializeScript(c, s);
    if script.None? { return None; }
    txout := Some(o.(script := script.value));
  }
}
