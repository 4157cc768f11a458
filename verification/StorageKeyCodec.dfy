/**
 * File names of the plugin key-value store (src/core/plugins/plugin-storage.service.ts:32-53): a key is
 * stored under `key-` and the unpadded base64url form of its bytes (sections 4 and 5 of RFC 4648).
 * Keys and names are byte strings.
 */
module StorageKeyCodec {
  import opened Wrappers
  import opened Sequences
  import opened Arithmetic

  type byte = x: int | 0 <= x < 256
  type Bytes = seq<byte>

  const PLUS: byte := '+' as int
  const SLASH: byte := '/' as int
  const DASH: byte := '-' as int
  const UNDERSCORE: byte := '_' as int
  const EQUALS: byte := '=' as int

  const ENCODED_KEY_PREFIX: Bytes := ['k' as int, 'e' as int, 'y' as int, '-' as int]

  // ---------------------------------------------------------------- base64

  /** Six bits: the value of one base64 digit. */
  type sextet = x: int | 0 <= x < 64

  /** The base64 alphabet (table 1 of RFC 4648). */
  function Digit(v: sextet): (c: byte)
    ensures Value(c) == Some(v) && c != EQUALS && c != DASH && c != UNDERSCORE
  {
    if v < 26 then 'A' as int + v
    else if v < 52 then 'a' as int + v - 26
    else if v < 62 then '0' as int + v - 52
    else if v == 62 then PLUS
    else SLASH
  }

  /** The value of a character of either alphabet; `None` for every other byte. */
  function Value(c: byte): Option<sextet> {
    if 'A' as int <= c <= 'Z' as int then Some(c - 'A' as int)
    else if 'a' as int <= c <= 'z' as int then Some(c - 'a' as int + 26)
    else if '0' as int <= c <= '9' as int then Some(c - '0' as int + 52)
    else if c == PLUS || c == DASH then Some(62)
    else if c == SLASH || c == UNDERSCORE then Some(63)
    else None
  }

  /** Four sextets from each three bytes; a tail of one or two bytes gives two or three. */
  function Sextets(b: Bytes): (vs: seq<sextet>)
  {
    if b == [] then
      []
    else if |b| == 1 then
      [b[0] / 4, b[0] % 4 * 16]
    else if |b| == 2 then
      [b[0] / 4, b[0] % 4 * 16 + b[1] / 16, b[1] % 16 * 4]
    else
      [b[0] / 4, b[0] % 4 * 16 + b[1] / 16, b[1] % 16 * 4 + b[2] / 64, b[2] % 64] + Sextets(b[3..])
  }

  lemma {:induction false} SextetsLength(b: Bytes)
    ensures |Sextets(b)| % 4 == if |b| % 3 == 0 then 0 else |b| % 3 + 1
    ensures 3 * |Sextets(b)| >= 4 * |b|
  {
    if |b| >= 3 {
      SextetsLength(b[3..]);
      FourForThree(|b| - 3, |Sextets(b[3..])|);
    }
  }

  lemma FourForThree(bytes: nat, sextets: nat)
    requires sextets % 4 == if bytes % 3 == 0 then 0 else bytes % 3 + 1
    ensures (sextets + 4) % 4 == if (bytes + 3) % 3 == 0 then 0 else (bytes + 3) % 3 + 1
  {
  }

  /** The digits of a byte string, without padding. */
  function Digits(b: Bytes): Bytes {
    var vs := Sextets(b);
    seq(|vs|, i requires 0 <= i < |vs| => Digit(vs[i]))
  }

  function Padding(n: nat): Bytes {
    if n % 3 == 1 then [EQUALS, EQUALS] else if n % 3 == 2 then [EQUALS] else []
  }

  /** `Buffer.toString('base64')`. */
  function ToBase64(b: Bytes): Bytes {
    Digits(b) + Padding(|b|)
  }

  /** The values of the base64 characters of `s`, everything else skipped. */
  function Values(s: Bytes): seq<sextet> {
    if s == [] then []
    else (if Value(s[0]).Some? then [Value(s[0]).value] else []) + Values(s[1..])
  }

  /** Three bytes from each four values; a tail of two or three values gives one or two bytes. */
  function FromSextets(vs: seq<sextet>): Bytes {
    if |vs| < 2 then
      []
    else
      var v0: int, v1: int := vs[0], vs[1];
      if |vs| == 2 then
        [v0 * 4 + v1 / 16]
      else
        var v2: int := vs[2];
        if |vs| == 3 then
          [v0 * 4 + v1 / 16, v1 % 16 * 16 + v2 / 4]
        else
          [v0 * 4 + v1 / 16, v1 % 16 * 16 + v2 / 4, v2 % 4 * 64 + vs[3]] + FromSextets(vs[4..])
  }

  /** `Buffer.from(s, 'base64')`: lenient about every byte that is not a digit. */
  function FromBase64(s: Bytes): Bytes {
    FromSextets(Values(s))
  }

  lemma {:induction false} RegroupSextets(b: Bytes)
    ensures FromSextets(Sextets(b)) == b
    decreases |b|
  {
    if |b| >= 3 {
      RegroupSextets(b[3..]);
      assert Sextets(b)[4..] == Sextets(b[3..]);
      assert b == [b[0], b[1], b[2]] + b[3..];
    }
  }

  lemma {:induction false} ValuesOfDigits(vs: seq<sextet>, pad: Bytes)
    requires forall c :: c in pad ==> Value(c).None?
    ensures Values(seq(|vs|, i requires 0 <= i < |vs| => Digit(vs[i])) + pad) == vs
    decreases |vs| + |pad|
  {
    var s := seq(|vs|, i requires 0 <= i < |vs| => Digit(vs[i])) + pad;
    if vs != [] {
      var t := vs[1..];
      ValuesOfDigits(t, pad);
      assert s[1..] == seq(|t|, i requires 0 <= i < |t| => Digit(t[i])) + pad;
      assert vs == [vs[0]] + t;
    } else if pad != [] {
      ValuesOfDigits([], pad[1..]);
      var none: seq<sextet> := [];
      assert s[1..] == seq(|none|, i requires 0 <= i < |none| => Digit(none[i])) + pad[1..];
    }
  }

  /** The decoder is right on every canonical input. */
  lemma Base64RoundTrip(b: Bytes)
    ensures FromBase64(ToBase64(b)) == b
  {
    ValuesOfDigits(Sextets(b), Padding(|b|));
    RegroupSextets(b);
  }

  // ---------------------------------------------------------------- file names

  /** `s.replace(/from/g, to)`. */
  function ReplaceAll(s: Bytes, from: byte, to: byte): Bytes {
    seq(|s|, i requires 0 <= i < |s| => if s[i] == from then to else s[i])
  }

  /** `s.replace(/=+$/g, '')`. */
  function StripPadding(s: Bytes): Bytes {
    if s != [] && s[|s| - 1] == EQUALS then StripPadding(s[..|s| - 1]) else s
  }

  function EncodeStorageKey(key: Bytes): Bytes {
    ENCODED_KEY_PREFIX + StripPadding(ReplaceAll(ReplaceAll(ToBase64(key), PLUS, DASH), SLASH, UNDERSCORE))
  }

  /** The digits behind the prefix, back in the standard alphabet and padded to a multiple of four. */
  function Padded(encoded: Bytes): Bytes {
    ReplaceAll(ReplaceAll(encoded, DASH, PLUS), UNDERSCORE, SLASH) + seq((4 - |encoded| % 4) % 4, _ => EQUALS)
  }

  /** `decodeStorageFileName` over any total base64 decoder. */
  function DecodeWith(decoder: Bytes -> Bytes, stem: Bytes): Option<Bytes> {
    if !StartsWith(stem, ENCODED_KEY_PREFIX) then None
    else
      var decoded := decoder(Padded(stem[|ENCODED_KEY_PREFIX|..]));
      if EncodeStorageKey(decoded) == stem then Some(decoded) else None
  }

  function DecodeStorageFileName(stem: Bytes): Option<Bytes> {
    DecodeWith(FromBase64, stem)
  }

  /** The base64url form of the key, as it stands in the file name. */
  function UrlDigits(b: Bytes): Bytes {
    ReplaceAll(ReplaceAll(Digits(b), PLUS, DASH), SLASH, UNDERSCORE)
  }

  lemma StripOne(s: Bytes)
    ensures StripPadding(s + [EQUALS]) == StripPadding(s)
  {
    assert (s + [EQUALS])[..|s + [EQUALS]| - 1] == s;
  }

  lemma StripPaddingRestores(s: Bytes, n: nat)
    requires s != [] ==> s[|s| - 1] != EQUALS
    ensures StripPadding(s + Padding(n)) == s
  {
    StripOne(s);
    StripOne(s + [EQUALS]);
    assert s + [EQUALS] + [EQUALS] == s + [EQUALS, EQUALS];
    assert s + [] == s;
  }

  /** What stands behind the prefix is the digits themselves, in the URL alphabet, without padding. */
  lemma EncodedKeyShape(key: Bytes)
    ensures EncodeStorageKey(key) == ENCODED_KEY_PREFIX + UrlDigits(key)
    ensures forall i :: 0 <= i < |UrlDigits(key)| ==> UrlDigits(key)[i] != SLASH && UrlDigits(key)[i] != EQUALS
    ensures forall i :: 0 <= i < |UrlDigits(key)| ==> Value(UrlDigits(key)[i]).Some?
    ensures |EncodeStorageKey(key)| > |key|
  {
    var s, p := UrlDigits(key), Padding(|key|);
    assert ReplaceAll(ReplaceAll(ToBase64(key), PLUS, DASH), SLASH, UNDERSCORE) == s + p;
    StripPaddingRestores(s, |key|);
    SextetsLength(key);
  }

  // ---------------------------------------------------------------- the digits, bit by bit

  /** The URL-safe alphabet (table 2 of RFC 4648). */
  function UrlCharacter(v: sextet): char {
    if v < 26 then 'A' + v as char
    else if v < 52 then 'a' + (v - 26) as char
    else if v < 62 then '0' + (v - 52) as char
    else if v == 62 then '-'
    else '_'
  }

  lemma UrlDigit(v: sextet)
    ensures var c := Digit(v);
            (if c == PLUS then DASH else if c == SLASH then UNDERSCORE else c) == UrlCharacter(v) as int
  {
  }

  function ByteAt(b: Bytes, i: nat): byte {
    if i < |b| then b[i] else 0
  }

  /** The `k`-th six bits of the byte string, read as one big-endian string of bits and filled up with zeros. */
  function SixBits(b: Bytes, k: nat): sextet {
    var i := k / 4 * 3;
    if k % 4 == 0 then ByteAt(b, i) / 4
    else if k % 4 == 1 then (ByteAt(b, i) * 256 + ByteAt(b, i + 1)) / 16 % 64
    else if k % 4 == 2 then (ByteAt(b, i + 1) * 256 + ByteAt(b, i + 2)) / 64 % 64
    else ByteAt(b, i + 2) % 64
  }

  lemma MiddleBits(a: byte, b: byte)
    ensures (a * 256 + b) / 16 % 64 == a % 4 * 16 + b / 16
    ensures (a * 256 + b) / 64 % 64 == a % 16 * 4 + b / 64
  {
    var p, q := a % 4 * 16 + b / 16, a % 16 * 4 + b / 64;
    DivideExactly(a * 256 + b, 16, 64 * (a / 4) + p, b % 16);
    DivideExactly(a * 256 + b, 64, 64 * (a / 16) + q, b % 64);
    DivideExactly(64 * (a / 4) + p, 64, a / 4, p);
    DivideExactly(64 * (a / 16) + q, 64, a / 16, q);
  }

  lemma {:induction false} SextetCount(b: Bytes)
    ensures |Sextets(b)| == (8 * |b| + 5) / 6
  {
    if |b| >= 3 {
      SextetCount(b[3..]);
      assert 8 * |b| + 5 == 8 * (|b| - 3) + 5 + 24;
    }
  }

  /** The first four sextets, or what a tail has of them. */
  lemma FirstSextets(b: Bytes, k: nat)
    requires k < |Sextets(b)| && k < 4
    ensures Sextets(b)[k] == SixBits(b, k)
  {
    MiddleBits(ByteAt(b, 0), ByteAt(b, 1));
    MiddleBits(ByteAt(b, 1), ByteAt(b, 2));
  }

  lemma {:induction false} SextetsAreSixBits(b: Bytes, k: nat)
    requires k < |Sextets(b)|
    ensures Sextets(b)[k] == SixBits(b, k)
  {
    if k < 4 {
      FirstSextets(b, k);
    } else {
      SextetsAreSixBits(b[3..], k - 4);
      SixBitsShift(b, k);
    }
  }

  lemma SixBitsShift(b: Bytes, k: nat)
    requires |b| >= 3 && k >= 4
    ensures SixBits(b, k) == SixBits(b[3..], k - 4)
  {
    var i := (k - 4) / 4 * 3;
    assert k / 4 * 3 == i + 3 && (k - 4) % 4 == k % 4;
    assert forall j :: i <= j < i + 3 ==> ByteAt(b[3..], j) == ByteAt(b, j + 3);
  }

  lemma UrlDigitAt(key: Bytes, k: nat)
    requires k < |Sextets(key)|
    ensures |UrlDigits(key)| == |Sextets(key)| && UrlDigits(key)[k] == UrlCharacter(Sextets(key)[k]) as int
  {
    UrlDigit(Sextets(key)[k]);
    assert Digits(key)[k] == Digit(Sextets(key)[k]);
  }

  /** The name of a key: the prefix, then one character of the alphabet for every six bits begun. */
  lemma EncodedKeyBits(key: Bytes, k: nat)
    ensures |EncodeStorageKey(key)| == 4 + (8 * |key| + 5) / 6
    ensures EncodeStorageKey(key)[..4] == ['k' as int, 'e' as int, 'y' as int, '-' as int]
    ensures k < (8 * |key| + 5) / 6 ==> EncodeStorageKey(key)[4 + k] == UrlCharacter(SixBits(key, k)) as int
  {
    EncodedKeyShape(key);
    SextetCount(key);
    assert |UrlDigits(key)| == |Sextets(key)|;
    if k < (8 * |key| + 5) / 6 {
      SextetsAreSixBits(key, k);
      UrlDigitAt(key, k);
      assert EncodeStorageKey(key)[4 + k] == UrlDigits(key)[k];
    }
  }

  lemma PaddedRestores(key: Bytes)
    ensures Padded(UrlDigits(key)) == ToBase64(key)
  {
    var d := Digits(key);
    SextetsLength(key);
    assert ReplaceAll(ReplaceAll(UrlDigits(key), DASH, PLUS), UNDERSCORE, SLASH) == d;
    assert seq((4 - |d| % 4) % 4, _ => EQUALS) == Padding(|key|);
  }

  ghost predicate RightOnCanonical(decoder: Bytes -> Bytes) {
    forall b :: decoder(ToBase64(b)) == b
  }

  /** Decoding is the exact partial inverse of encoding, whatever the decoder does on other input. */
  lemma DecodeIsExactInverse(decoder: Bytes -> Bytes, stem: Bytes, key: Bytes)
    requires RightOnCanonical(decoder)
    ensures DecodeWith(decoder, stem) == Some(key) <==> stem == EncodeStorageKey(key)
  {
    if stem == EncodeStorageKey(key) {
      EncodedKeyShape(key);
      PaddedRestores(key);
      assert stem[..|ENCODED_KEY_PREFIX|] == ENCODED_KEY_PREFIX;
      assert stem[|ENCODED_KEY_PREFIX|..] == UrlDigits(key);
    }
  }

  lemma FromBase64IsRight()
    ensures RightOnCanonical(FromBase64)
  {
    forall b: Bytes
      ensures FromBase64(ToBase64(b)) == b
    {
      Base64RoundTrip(b);
    }
  }

  /** A stem decodes to a key if and only if it is the name that key is stored under. */
  lemma DecodeIffEncoded(stem: Bytes, key: Bytes)
    ensures DecodeStorageFileName(stem) == Some(key) <==> stem == EncodeStorageKey(key)
  {
    FromBase64IsRight();
    DecodeIsExactInverse(FromBase64, stem, key);
  }

  lemma EncodeIsInjective(a: Bytes, b: Bytes)
    requires EncodeStorageKey(a) == EncodeStorageKey(b)
    ensures a == b
  {
    DecodeIffEncoded(EncodeStorageKey(a), a);
    DecodeIffEncoded(EncodeStorageKey(b), b);
  }
}
