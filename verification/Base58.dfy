/** Base58 text (src/base58.cpp): big-endian buffers multiplied and added in
    place by nested carry loops, and the two codecs as inverses of each other. */
module Base58 {
  import opened Common
  import opened Radix

  /** The digits and letters but for 0, I, O and l. */
  const ALPHABET := "123456789" + "ABCDEFGH" + "JKLMN" + "PQRSTUVWXYZ" + "abcdefghijk" + "mnopqrstuvwxyz"

  lemma AlphabetAscends(i: nat, j: nat)
    requires i < j < 58
    ensures |ALPHABET| == 58 && ALPHABET[i] < ALPHABET[j]
    decreases j
  {
    assert |ALPHABET| == 58;
    assert ALPHABET[j - 1] < ALPHABET[j];
    if i < j - 1 { AlphabetAscends(i, j - 1); }
  }

  lemma PowersFit()
    ensures Pow(256, 8) <= Pow(58, 11)
    ensures Pow(58, 71) <= Pow(256, 52)
  {
    assert Pow(256, 8) <= Pow(58, 11);
    Fits71();
  }

  lemma Fits71()
    ensures Pow(58, 71) <= Pow(256, 52)
  {
    hide Pow;
    Doublings(58);
    Doublings(256);
    PowAdd(58, 7, 64);
    PowAdd(256, 32, 16);
    PowAdd(256, 48, 4);
    Literals();
  }

  lemma Doublings(b: nat)
    ensures Pow(b, 16) == Pow(b, 8) * Pow(b, 8)
    ensures Pow(b, 32) == Pow(b, 16) * Pow(b, 16)
    ensures Pow(b, 64) == Pow(b, 32) * Pow(b, 32)
  {
    hide Pow;
    PowAdd(b, 8, 8);
    PowAdd(b, 16, 16);
    PowAdd(b, 32, 32);
  }

  lemma Literals()
    ensures Pow(58, 7) == 2207984167552
    ensures Pow(58, 8) == 128063081718016
    ensures Pow(256, 4) == 4294967296
    ensures Pow(256, 8) == 18446744073709551616
  {
  }

  /** The value of a character: its first place in the alphabet. */
  function Place(c: char, from: nat := 0): (r: Option<nat>)
    requires from <= |ALPHABET|
    ensures r.Some? ==> from <= r.value < |ALPHABET| && ALPHABET[r.value] == c
    ensures r.None? ==> forall i :: from <= i < |ALPHABET| ==> ALPHABET[i] != c
    decreases |ALPHABET| - from
  {
    if from == |ALPHABET| then None
    else if ALPHABET[from] == c then Some(from)
    else Place(c, from + 1)
  }

  lemma PlaceUnique(i: nat)
    requires i < 58
    ensures |ALPHABET| == 58 && Place(ALPHABET[i]) == Some(i)
  {
    assert |ALPHABET| == 58;
    var k := Place(ALPHABET[i]).value;
    if k < i { AlphabetAscends(k, i); }
    if i < k { AlphabetAscends(i, k); }
  }

  ghost predicate Spelled(s: string) {
    forall i :: 0 <= i < |s| ==> Place(s[i]).Some?
  }

  ghost function DigitsOf(s: string): (d: seq<nat>)
    requires Spelled(s)
    ensures |d| == |s| && forall i :: 0 <= i < |s| ==> d[i] == Place(s[i]).value
  {
    seq(|s|, i requires 0 <= i < |s| => Place(s[i]).value)
  }

  lemma SpelledDigits(s: string)
    requires Spelled(s)
    ensures Digits(DigitsOf(s), 58)
  {
    assert |ALPHABET| == 58;
  }

  lemma SpellingUnique(s: string, t: string)
    requires Spelled(s) && Spelled(t) && DigitsOf(s) == DigitsOf(t)
    ensures s == t
  {
    assert |s| == |DigitsOf(s)| == |t|;
    forall i | 0 <= i < |s| ensures s[i] == t[i] {
      assert DigitsOf(s)[i] == DigitsOf(t)[i];
      assert s[i] == ALPHABET[Place(s[i]).value] && t[i] == ALPHABET[Place(t[i]).value];
    }
  }

  // ---- what the codecs promise ----

  /** Text s spells the number that bytes v hold, one '1' per leading zero byte. */
  ghost predicate EncodesTo(v: seq<byte>, s: string) {
    Spelled(s) && Recoded(v, 256, DigitsOf(s), 58)
  }

  predicate IsSpace(c: char) { c == ' ' || '\t' as int <= c as int <= '\r' as int }

  function TrimLeft(s: string): string {
    if s == [] || !IsSpace(s[0]) then s else TrimLeft(s[1..])
  }

  function TrimRight(s: string): string {
    if s == [] || !IsSpace(s[|s| - 1]) then s else TrimRight(s[..|s| - 1])
  }

  function Trim(s: string): string { TrimRight(TrimLeft(s)) }

  /** Accepted exactly when all that stands between the surrounding spaces is
      in the alphabet, and then the bytes hold the number that text spells. */
  ghost predicate DecodesTo(text: string, r: Option<seq<byte>>) {
    && (r.Some? <==> Spelled(Trim(text)))
    && (r.Some? ==> EncodesTo(r.value, Trim(text)))
  }

  lemma RecodedSymmetric(x: seq<nat>, b: nat, y: seq<nat>, c: nat)
    requires Recoded(x, b, y, c)
    ensures Recoded(y, c, x, b)
  {
  }

  lemma SpelledNoSpace(s: string, i: nat)
    requires i < |s| && IsSpace(s[i])
    ensures !Spelled(s)
  {
    assert |ALPHABET| == 58 && ALPHABET[0] == '1';
    var k := Place(s[i]);
    if k.Some? && k.value > 0 { AlphabetAscends(0, k.value); }
  }

  lemma SpelledTrim(s: string)
    requires Spelled(s)
    ensures Trim(s) == s
  {
    hide Spelled, IsSpace, Place;
    if s != [] {
      if IsSpace(s[0]) { SpelledNoSpace(s, 0); }
      if IsSpace(s[|s| - 1]) { SpelledNoSpace(s, |s| - 1); }
    }
  }

  /** decode(encode(v)) == v for every byte string. */
  lemma DecodeInvertsEncode(v: seq<byte>, s: string, r: Option<seq<byte>>)
    requires EncodesTo(v, s) && DecodesTo(s, r)
    ensures r == Some(v)
  {
    SpelledTrim(s);
    RecodedSymmetric(r.value, 256, DigitsOf(s), 58);
    RecodedInverse(v, 256, DigitsOf(s), 58, r.value);
  }

  /** encode(decode(text)) is the text without its surrounding spaces, for every
      accepted text. */
  lemma EncodeInvertsDecode(text: string, r: Option<seq<byte>>, s: string)
    requires DecodesTo(text, r) && r.Some? && EncodesTo(r.value, s)
    ensures s == Trim(text)
  {
    var t := Trim(text);
    RecodedSymmetric(r.value, 256, DigitsOf(t), 58);
    RecodedInverse(DigitsOf(t), 58, r.value, 256, DigitsOf(s));
    SpellingUnique(s, t);
  }

  // ---- the buffers ----

  /** buffer = buffer * 256 + x in base 58, leaving alone the digits beyond
      `length` that are still zero. */
  method AbsorbByte(b58: array<nat>, x: nat, length: nat) returns (used: nat)
    requires Digits(b58[..], 58) && length <= b58.Length
    requires forall k :: 0 <= k < b58.Length - length ==> b58[k] == 0
    requires Mul(256, Num(b58[..], 58)) + x < Pow(58, b58.Length)
    modifies b58
    ensures Digits(b58[..], 58) && used <= b58.Length
    ensures forall k :: 0 <= k < b58.Length - used ==> b58[k] == 0
    ensures Num(b58[..], 58) == Mul(256, Num(old(b58[..]), 58)) + x
  {
    hide Pow, Num, Mul;
    var carry := x;
    ghost var a := b58[..];
    var i := 0;
    MulAddStart(a, 58, 256, x);
    while (carry != 0 || i < length) && i < b58.Length
      invariant 0 <= i <= b58.Length
      invariant MulAddAt(a, b58[..], 58, 256, x, b58.Length - i, carry)
    {
      var j := b58.Length - i - 1;
      MulDef(256, b58[j]);
      MulAddNext(a, b58[..], 58, 256, x, j + 1, carry, carry + 256 * b58[j]);
      carry := carry + 256 * b58[j];
      b58[j] := carry % 58;
      carry := carry / 58;
      i := i + 1;
    }
    assert forall k :: 0 <= k < b58.Length - length ==> a[k] == 0;
    MulAddEnd(a, b58[..], 58, 256, x, b58.Length - i, carry);
    assert carry == 0;
    forall k | 0 <= k < b58.Length - i ensures b58[k] == 0 {
      assert b58[..][..b58.Length - i][k] == a[..b58.Length - i][k];
    }
    used := i;
  }

  /** buffer = buffer * 58 + x in base 256. */
  method AbsorbDigit(b256: array<nat>, x: nat)
    requires Digits(b256[..], 256)
    requires Mul(58, Num(b256[..], 256)) + x < Pow(256, b256.Length)
    modifies b256
    ensures Digits(b256[..], 256)
    ensures Num(b256[..], 256) == Mul(58, Num(old(b256[..]), 256)) + x
  {
    hide Pow, Num, Mul;
    var carry := x;
    ghost var a := b256[..];
    var j := b256.Length;
    MulAddStart(a, 256, 58, x);
    while j != 0
      invariant 0 <= j <= b256.Length
      invariant MulAddAt(a, b256[..], 256, 58, x, j, carry)
    {
      j := j - 1;
      MulDef(58, b256[j]);
      MulAddNext(a, b256[..], 256, 58, x, j + 1, carry, carry + 58 * b256[j]);
      carry := carry + 58 * b256[j];
      b256[j] := carry % 256;
      carry := carry / 256;
    }
    MulAddEnd(a, b256[..], 256, 58, x, 0, carry);
    assert carry == 0;
  }

  /** The first n of s, of m digits in base a, leave room in a buffer of base b. */
  lemma RoomFor(s: seq<nat>, i: nat, a: nat, b: nat, size: nat)
    requires a > 0 && i < |s| && Digits(s, a) && Pow(a, |s|) <= Pow(b, size)
    ensures Mul(a, Num(s[..i], a)) + s[i] == Num(s[..i + 1], a) < Pow(b, size)
  {
    NumSnoc(s, i, a);
    NumBound(s[..i + 1], a);
    PowExponent(a, i + 1, |s|);
  }

  lemma ZeroBuffer(s: seq<nat>, b: nat)
    requires forall k :: 0 <= k < |s| ==> s[k] == 0
    ensures Num(s, b) == 0
  {
    ZerosNum(s, |s|, b);
  }

  lemma SizeForEncoding(n: nat)
    ensures Pow(256, n) <= Pow(58, n * 138 / 100 + 1)
  {
    PowersFit();
    RootBound(256, 58, 11, 8, n, n * 138 / 100 + 1);
  }

  lemma SizeForDecoding(n: nat)
    ensures Pow(58, n) <= Pow(256, n * 733 / 1000 + 1)
  {
    PowersFit();
    RootBound(58, 256, 52, 71, n, n * 733 / 1000 + 1);
  }

  /** Zeros put before digits that start with none. */
  lemma Prefixed(zeros: seq<nat>, d: seq<nat>, b: nat)
    requires forall k :: 0 <= k < |zeros| ==> zeros[k] == 0
    requires d != [] ==> d[0] != 0
    ensures LeadingZeros(zeros + d) == |zeros| && Num(zeros + d, b) == Num(d, b)
  {
    var s := zeros + d;
    ZerosNum(s, |zeros|, b);
    assert s[|zeros|..] == d;
  }

  method Encode(v: seq<byte>) returns (str: string)
    ensures EncodesTo(v, str)
  {
    hide Pow, Num, Mul, Place, LeadingZeros, Recoded, EncodesTo, Spelled;
    var zeroes := 0;
    while zeroes < |v| && v[zeroes] == 0
      invariant zeroes <= |v|
      invariant forall k :: 0 <= k < zeroes ==> v[k] == 0
    {
      zeroes := zeroes + 1;
    }
    ghost var rest: seq<nat> := v[zeroes..];
    var size := (|v| - zeroes) * 138 / 100 + 1;
    SizeForEncoding(|rest|);
    var b58: array<nat> := new nat[size](_ => 0);
    ZeroBuffer(b58[..], 58);
    NumOfNone(256);
    var length: nat := 0;
    var p := zeroes;
    while p != |v|
      invariant zeroes <= p <= |v| && length <= size
      invariant Digits(b58[..], 58) && forall k :: 0 <= k < size - length ==> b58[k] == 0
      invariant Num(b58[..], 58) == Num(rest[..p - zeroes], 256)
    {
      assert v[p] == rest[p - zeroes];
      RoomFor(rest, p - zeroes, 256, 58, size);
      length := AbsorbByte(b58, v[p], length);
      p := p + 1;
    }
    assert rest[..|rest|] == rest;
    var it := size - length;
    while it != size && b58[it] == 0
      invariant 0 <= it <= size
      invariant forall k :: 0 <= k < it ==> b58[k] == 0
    {
      it := it + 1;
    }
    ghost var digits := b58[it..];
    ZerosNum(b58[..], it, 58);
    assert b58[..][it..] == digits;
    str := Written(zeroes, b58, it);
    Encoded(v, zeroes, digits, str);
  }

  lemma Encoded(v: seq<byte>, zeroes: nat, digits: seq<nat>, str: string)
    requires zeroes <= |v| && (forall k :: 0 <= k < zeroes ==> v[k] == 0) && (zeroes < |v| ==> v[zeroes] != 0)
    requires digits != [] ==> digits[0] != 0
    requires Num(v[zeroes..], 256) == Num(digits, 58)
    requires Spelled(str) && DigitsOf(str) == seq(zeroes, _ => 0) + digits
    ensures EncodesTo(v, str)
  {
    hide Num, Place, LeadingZeros;
    SpelledDigits(str);
    assert v == v[..zeroes] + v[zeroes..];
    Prefixed(v[..zeroes], v[zeroes..], 256);
    Prefixed(seq(zeroes, _ => 0), digits, 58);
  }

  lemma NumOfNone(b: nat)
    ensures Num([], b) == 0
  {
  }

  /** The text for `zeroes` zero digits followed by those of the buffer from it on. */
  method Written(zeroes: nat, b58: array<nat>, from: nat) returns (str: string)
    requires from <= b58.Length && Digits(b58[..], 58)
    ensures Spelled(str) && DigitsOf(str) == seq(zeroes, _ => 0) + b58[from..]
  {
    hide Place;
    assert |ALPHABET| == 58;
    PlaceUnique(0);
    str := seq(zeroes, _ => '1');
    var it := from;
    while it != b58.Length
      invariant from <= it <= b58.Length
      invariant |str| == zeroes + it - from
      invariant forall k :: 0 <= k < zeroes ==> Place(str[k]) == Some(0)
      invariant forall k :: zeroes <= k < |str| ==> Place(str[k]) == Some(b58[from + k - zeroes])
    {
      PlaceUnique(b58[it]);
      str := str + [ALPHABET[b58[it]]];
      it := it + 1;
    }
  }

  // ---- decoding ----

  lemma {:induction false} SkippedIsTrimmed(text: string, p: nat)
    requires p <= |text| && (p < |text| ==> !IsSpace(text[p]))
    requires forall k :: 0 <= k < p ==> IsSpace(text[k])
    ensures TrimLeft(text) == text[p..]
  {
    hide IsSpace;
    if p > 0 {
      SkippedIsTrimmed(text[1..], p - 1);
      assert text[1..][p - 1..] == text[p..];
    }
  }

  lemma {:induction false} EndIsTrimmed(body: string, spaces: string)
    requires body != [] ==> !IsSpace(body[|body| - 1])
    requires forall k :: 0 <= k < |spaces| ==> IsSpace(spaces[k])
    ensures TrimRight(body + spaces) == body
  {
    hide IsSpace;
    if spaces == [] {
      assert body + spaces == body;
    } else {
      var rest := spaces[..|spaces| - 1];
      assert (body + spaces)[..|body + spaces| - 1] == body + rest;
      EndIsTrimmed(body, rest);
    }
  }

  /** Trimming reaches no character before one that is not a space. */
  lemma {:induction false} TrimRightKeeps(t: string, k: nat, n: nat)
    requires k <= n < |t| && !IsSpace(t[n])
    ensures k < |TrimRight(t)| && TrimRight(t)[k] == t[k]
  {
    hide IsSpace;
    if IsSpace(t[|t| - 1]) { TrimRightKeeps(t[..|t| - 1], k, n); }
  }

  /** The scan read the alphabet and found only spaces from there. */
  lemma Accepted(text: string, body: string, spaces: string)
    requires TrimLeft(text) == body + spaces && Spelled(body)
    requires forall k :: 0 <= k < |spaces| ==> IsSpace(spaces[k])
    ensures Trim(text) == body
  {
    hide Place, Spelled, IsSpace, TrimLeft, TrimRight;
    if body != [] && IsSpace(body[|body| - 1]) { SpelledNoSpace(body, |body| - 1); }
    EndIsTrimmed(body, spaces);
  }

  /** A bad character is not trimmed away, and neither is a space before one. */
  lemma Rejected(text: string, p: nat, q: nat, r: nat)
    requires p <= q <= r < |text| && TrimLeft(text) == text[p..] && !IsSpace(text[r])
    requires Place(text[q]).None?
    ensures !Spelled(Trim(text))
  {
    hide Place, IsSpace, TrimLeft, TrimRight, Spelled;
    TrimRightKeeps(text[p..], q - p, r - p);
    Misspelled(Trim(text), q - p);
  }

  lemma Misspelled(text: string, k: nat)
    requires k < |text| && Place(text[k]).None?
    ensures !Spelled(text)
  {
    hide Place;
  }

  method SkipSpaces(text: string, from: nat) returns (p: nat)
    requires from <= |text|
    ensures from <= p <= |text| && (p < |text| ==> !IsSpace(text[p]))
    ensures forall k :: from <= k < p ==> IsSpace(text[k])
  {
    p := from;
    while p < |text| && IsSpace(text[p])
      invariant from <= p <= |text|
      invariant forall k :: from <= k < p ==> IsSpace(text[k])
    {
      p := p + 1;
    }
  }

  lemma SpaceUnplaced(c: char)
    requires IsSpace(c)
    ensures Place(c).None?
  {
    SpelledNoSpace([c], 0);
  }

  lemma SpelledSnoc(text: string, p: nat, q: nat)
    requires p <= q < |text| && Spelled(text[p..q]) && Place(text[q]).Some?
    ensures Spelled(text[p..q + 1])
    ensures DigitsOf(text[p..q + 1]) == DigitsOf(text[p..q]) + [Place(text[q]).value]
  {
    hide Place;
    assert text[p..q + 1] == text[p..q] + [text[q]];
  }

  /** One more digit fits the buffer. */
  lemma DigitFits(d: seq<nat>, x: nat, n: nat, size: nat)
    requires Digits(d, 58) && x < 58 && |d| < n && size == n * 733 / 1000 + 1
    ensures Mul(58, Num(d, 58)) + x == Num(d + [x], 58) < Pow(256, size)
  {
    var s := d + [x];
    SizeForDecoding(n);
    PowExponent(58, |s|, n);
    assert s[..|d|] == d && s[..|d| + 1] == s;
    RoomFor(s, |d|, 58, 256, size);
  }

  /** Read characters up to a space or the end, or up to one that is neither a
      space nor in the alphabet. */
  method ReadDigits(text: string, p: nat, b256: array<nat>) returns (q: nat, good: bool)
    requires p <= |text| && b256.Length == (|text| - p) * 733 / 1000 + 1
    requires forall k :: 0 <= k < b256.Length ==> b256[k] == 0
    modifies b256
    ensures p <= q <= |text| && Spelled(text[p..q]) && Digits(b256[..], 256)
    ensures good ==> q == |text| || IsSpace(text[q])
    ensures good ==> Num(b256[..], 256) == Num(DigitsOf(text[p..q]), 58)
    ensures !good ==> q < |text| && !IsSpace(text[q]) && Place(text[q]).None?
  {
    hide Pow, Num, Mul, Place, IsSpace;
    ZeroBuffer(b256[..], 256);
    NumOfNone(58);
    q := p;
    assert DigitsOf(text[p..q]) == [];
    while q < |text| && !IsSpace(text[q])
      invariant p <= q <= |text| && Spelled(text[p..q]) && Digits(b256[..], 256)
      invariant Num(b256[..], 256) == Num(DigitsOf(text[p..q]), 58)
    {
      var ch := Place(text[q]);
      if ch.None? { return q, false; }
      SpelledDigits(text[p..q]);
      assert |ALPHABET| == 58;
      DigitFits(DigitsOf(text[p..q]), ch.value, |text| - p, b256.Length);
      AbsorbDigit(b256, ch.value);
      SpelledSnoc(text, p, q);
      q := q + 1;
    }
    good := true;
  }

  /** The bytes for `zeroes` zeros followed by the buffer without its leading zeros. */
  method Stripped(zeroes: nat, b256: array<nat>) returns (v: seq<byte>)
    requires Digits(b256[..], 256)
    ensures Digits(v, 256) && LeadingZeros(v) == zeroes && Num(v, 256) == Num(b256[..], 256)
  {
    hide Num;
    var it := 0;
    while it != b256.Length && b256[it] == 0
      invariant 0 <= it <= b256.Length
      invariant forall k :: 0 <= k < it ==> b256[k] == 0
    {
      it := it + 1;
    }
    ghost var from := it;
    v := seq(zeroes, _ => 0);
    while it != b256.Length
      invariant from <= it <= b256.Length && |v| == zeroes + it - from
      invariant v == seq(zeroes, _ => 0) + b256[from..it]
    {
      v := v + [b256[it]];
      it := it + 1;
    }
    assert b256[from..it] == b256[..][from..];
    ZerosNum(b256[..], from, 256);
    Prefixed(seq(zeroes, _ => 0), b256[..][from..], 256);
  }

  lemma Body(text: string, start: nat, p: nat, q: nat)
    requires start <= p <= q <= |text| && Spelled(text[p..q])
    requires forall k :: start <= k < p ==> text[k] == '1'
    ensures Spelled(text[start..q])
  {
    hide Place;
    PlaceUnique(0);
    assert text[start..q] == text[start..p] + text[p..q];
  }

  lemma BodyTrimmed(text: string, start: nat, q: nat)
    requires start <= q <= |text| && TrimLeft(text) == text[start..] && Spelled(text[start..q])
    requires forall k :: q <= k < |text| ==> IsSpace(text[k])
    ensures Trim(text) == text[start..q]
  {
    hide *;
    assert text[start..] == text[start..q] + text[q..];
    Accepted(text, text[start..q], text[q..]);
  }

  lemma BodyEncoded(text: string, v: seq<byte>, zeroes: nat, b: seq<nat>, start: nat, p: nat, q: nat)
    requires start <= p <= q <= |text| && p == start + zeroes && (p < |text| ==> text[p] != '1')
    requires forall k :: start <= k < p ==> text[k] == '1'
    requires Spelled(text[p..q]) && Trim(text) == text[start..q] && Spelled(Trim(text))
    requires Digits(v, 256) && LeadingZeros(v) == zeroes && Num(v, 256) == Num(b, 256)
    requires Num(b, 256) == Num(DigitsOf(text[p..q]), 58)
    ensures DecodesTo(text, Some(v))
  {
    hide Num, Place, Trim, LeadingZeros;
    var rest, body := text[p..q], text[start..q];
    PlaceUnique(0);
    SpelledDigits(body);
    var z: seq<nat> := seq(zeroes, _ => 0);
    assert forall i :: 0 <= i < |rest| ==> body[zeroes + i] == rest[i];
    assert DigitsOf(body) == z + DigitsOf(rest);
    if rest != [] { assert ALPHABET[Place(rest[0]).value] == rest[0] == text[p]; }
    Prefixed(z, DigitsOf(rest), 58);
  }

  lemma Refused(text: string)
    requires !Spelled(Trim(text))
    ensures DecodesTo(text, None)
  {
  }

  method Decode(text: string) returns (vch: Option<seq<byte>>)
    requires '\0' !in text
    ensures DecodesTo(text, vch)
  {
    hide *;
    var start := SkipSpaces(text, 0);
    SkippedIsTrimmed(text, start);
    var p := start;
    var zeroes := 0;
    while p < |text| && text[p] == '1'
      invariant p <= |text| && p == start + zeroes
      invariant forall k :: start <= k < p ==> text[k] == '1'
    {
      zeroes := zeroes + 1;
      p := p + 1;
    }
    var b256: array<nat> := new nat[(|text| - p) * 733 / 1000 + 1](_ => 0);
    var q, good := ReadDigits(text, p, b256);
    if !good {
      Rejected(text, start, q, q);
      Refused(text);
      return None;
    }
    var r := SkipSpaces(text, q);
    if r != |text| {
      SpaceUnplaced(text[q]);
      Rejected(text, start, q, r);
      Refused(text);
      return None;
    }
    var v := Stripped(zeroes, b256);
    Body(text, start, p, q);
    BodyTrimmed(text, start, q);
    BodyEncoded(text, v, zeroes, b256[..], start, p, q);
    return Some(v);
  }
}
