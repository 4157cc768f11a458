/**
 * IPv4 text and CIDR masks (src/common/security/ssrf-guard.ts:53-76, src/common/utils/ip.ts:1-10 and 60-97).
 *
 * The bit operators are JavaScript's: operands are taken modulo 2^32, results are signed 32-bit numbers,
 * and `>>> 0` reads them as unsigned. `And` is the bitwise conjunction of naturals, bit by bit.
 */
module Ipv4 {
  import opened Wrappers
  import opened Characters
  import opened Sequences
  import opened Arithmetic

  // ---------------------------------------------------------------- bit operators

  function Pow2(k: nat): (p: nat)
    ensures p > 0
  {
    if k == 0 then 1 else 2 * Pow2(k - 1)
  }

  const TWO_32: nat := 0x1_0000_0000

  function And(x: nat, y: nat): nat
    decreases x
  {
    if x == 0 then 0
    else 2 * And(x / 2, y / 2) + if x % 2 == 1 && y % 2 == 1 then 1 else 0
  }

  function ToUint32(x: int): nat {
    x % TWO_32
  }

  function ToInt32(x: int): int {
    if ToUint32(x) < TWO_32 / 2 then ToUint32(x) else ToUint32(x) - TWO_32
  }

  /** `x & y`. */
  function And32(x: int, y: int): int {
    ToInt32(And(ToUint32(x), ToUint32(y)))
  }

  /** `x << k`, where only the low five bits of `k` count. */
  function Shl32(x: int, k: nat): int {
    ToInt32(ToInt32(x) * Pow2(k % 32))
  }

  /** `(0xffffffff << (32 - bits)) >>> 0`, and no bits at all for 0. */
  function Mask(bits: nat): nat
    requires bits <= 32
  {
    if bits == 0 then 0 else ToUint32(Shl32(0xffff_ffff, 32 - bits))
  }

  lemma PowersOfTwo()
    ensures Pow2(32) == TWO_32 && Pow2(31) == TWO_32 / 2
  {
    PowSum(4, 4);
    PowSum(8, 8);
    PowSum(16, 16);
  }

  lemma {:induction false} PowSum(a: nat, b: nat)
    ensures Pow2(a + b) == Pow2(a) * Pow2(b)
  {
    if a > 0 {
      PowSum(a - 1, b);
    }
  }

  lemma {:induction false} PowMonotone(a: nat, b: nat)
    requires a <= b
    ensures Pow2(a) <= Pow2(b)
  {
    if a < b {
      PowMonotone(a, b - 1);
    }
  }

  lemma NegativeWraps(p: int)
    requires 0 < p <= TWO_32 / 2
    ensures ToInt32(-p) == -p && ToUint32(-p) == TWO_32 - p
  {
  }

  /** The mask keeps the `bits` high bits: it is 2^32 - 2^(32 - bits). */
  lemma MaskValue(bits: nat)
    requires bits <= 32
    ensures Pow2(32 - bits) <= TWO_32 && Mask(bits) == TWO_32 - Pow2(32 - bits)
  {
    PowersOfTwo();
    PowMonotone(32 - bits, 32);
    if bits > 0 {
      PowMonotone(32 - bits, 31);
      NegativeWraps(1);
      ShiftedOnes(32 - bits);
    }
  }

  lemma ShiftedOnes(k: nat)
    requires k < 32 && Pow2(k) <= TWO_32 / 2
    ensures ToUint32(Shl32(0xffff_ffff, k)) == TWO_32 - Pow2(k)
  {
    assert ToInt32(0xffff_ffff) == -1 && k % 32 == k;
    NegatedProduct(Pow2(k));
    NegativeWraps(Pow2(k));
  }

  lemma NegatedProduct(p: int)
    ensures -1 * p == -p
  {
  }

  lemma {:induction false} AndOnes(x: nat, width: nat)
    requires x < Pow2(width)
    ensures And(x, Pow2(width) - 1) == x
  {
    if x > 0 {
      AndOnes(x / 2, width - 1);
      assert (Pow2(width) - 1) / 2 == Pow2(width - 1) - 1;
    }
  }

  lemma HalfOf(x: nat, half: nat, r: nat)
    requires x == 2 * half + r
    ensures x / 2 == half + r / 2
  {
  }

  lemma DoubledLeft(d: nat, q: nat)
    ensures (2 * d) * q == 2 * (d * q)
  {
  }

  lemma DivideDoubled(x: nat, d: nat, dq: nat, q: nat, r: nat)
    requires d > 0 && r < 2 * d && dq == d * q && x == 2 * dq + r
    ensures x / 2 / d == q
  {
    HalfOf(x, dq, r);
    DivideExactly(x / 2, d, q, r / 2);
  }

  lemma HalfThenDivide(x: nat, d: nat, twice: nat)
    requires d > 0 && twice == 2 * d
    ensures x / 2 / d == x / twice
  {
    var q, r := Divided(x, twice);
    DoubledLeft(d, q);
    DivideDoubled(x, d, d * q, q, r);
  }

  lemma AndDoubled(x: nat, mask: nat)
    ensures And(x, 2 * mask) == 2 * And(x / 2, mask)
  {
    HalfOf(2 * mask, mask, 0);
    if x > 0 {
      assert And(x, 2 * mask) == 2 * And(x / 2, 2 * mask / 2);
    }
  }

  lemma DoubledProduct(q: nat, d: nat)
    ensures 2 * (q * d) == q * (2 * d)
  {
  }

  lemma AndMaskStep(x: nat, mask: nat, q: nat, d: nat, twice: nat)
    requires twice == 2 * d && And(x / 2, mask) == q * d
    ensures And(x, 2 * mask) == q * twice
  {
    AndDoubled(x, mask);
    DoubledProduct(q, d);
  }

  /** Conjunction with a mask of high bits rounds down to a multiple of 2^low. */
  lemma {:induction false} AndMask(x: nat, width: nat, low: nat)
    requires low <= width && x < Pow2(width)
    ensures Pow2(low) <= Pow2(width)
    ensures And(x, Pow2(width) - Pow2(low)) == x / Pow2(low) * Pow2(low)
  {
    PowMonotone(low, width);
    if low == 0 {
      AndOnes(x, width);
    } else if x > 0 {
      AndMask(x / 2, width - 1, low - 1);
      HalfThenDivide(x, Pow2(low - 1), Pow2(low));
      AndMaskStep(x, Pow2(width - 1) - Pow2(low - 1), x / Pow2(low), Pow2(low - 1), Pow2(low));
      assert Pow2(width) - Pow2(low) == 2 * (Pow2(width - 1) - Pow2(low - 1));
    } else {
      assert 0 / Pow2(low) == 0;
    }
  }

  lemma MultiplesAgree(a: nat, b: nat, d: nat)
    requires d > 0 && a * d == b * d
    ensures a == b
  {
    if a < b {
      ProductGap(d, a, b);
    } else if b < a {
      ProductGap(d, b, a);
    }
  }

  /** The masked comparison, signed or unsigned. */
  predicate MaskedEqual(x: nat, y: nat, bits: nat)
    requires bits <= 32
  {
    And32(x, Mask(bits)) == And32(y, Mask(bits))
  }

  /** Both addresses lie in the same block of 2^(32 - bits) addresses. */
  predicate SameBlock(x: nat, y: nat, bits: nat)
    requires bits <= 32
  {
    x / Pow2(32 - bits) == y / Pow2(32 - bits)
  }

  lemma Int32IsInjective(x: nat, y: nat)
    requires x < TWO_32 && y < TWO_32 && ToInt32(x) == ToInt32(y)
    ensures x == y
  {
  }

  lemma RoundedDown(x: nat, p: nat)
    requires p > 0
    ensures x / p * p <= x
  {
  }

  lemma Unsigned(x: nat)
    requires x < TWO_32
    ensures ToUint32(x) == x
  {
  }

  lemma And32Mask(x: nat, bits: nat)
    requires bits <= 32 && x < TWO_32
    ensures And32(x, Mask(bits)) == ToInt32(x / Pow2(32 - bits) * Pow2(32 - bits))
  {
    PowersOfTwo();
    MaskValue(bits);
    AndMask(x, 32, 32 - bits);
    Unsigned(x);
    Unsigned(Mask(bits));
  }

  lemma RoundedAgree(x: nat, y: nat, p: nat)
    requires p > 0 && x < TWO_32 && y < TWO_32
    ensures ToInt32(x / p * p) == ToInt32(y / p * p) <==> x / p == y / p
  {
    RoundedDown(x, p);
    RoundedDown(y, p);
    if ToInt32(x / p * p) == ToInt32(y / p * p) {
      Int32IsInjective(x / p * p, y / p * p);
      MultiplesAgree(x / p, y / p, p);
    }
  }

  /** CIDR masks mean division, for every pair of addresses and every prefix length. */
  lemma MaskMeansDivision(x: nat, y: nat, bits: nat)
    requires bits <= 32 && x < TWO_32 && y < TWO_32
    ensures MaskedEqual(x, y, bits) <==> SameBlock(x, y, bits)
  {
    And32Mask(x, bits);
    And32Mask(y, bits);
    RoundedAgree(x, y, Pow2(32 - bits));
  }

  // ---------------------------------------------------------------- text

  predicate IsDigit(c: char) {
    '0' <= c <= '9'
  }

  predicate AllDigits(s: string) {
    forall i :: 0 <= i < |s| ==> IsDigit(s[i])
  }

  function DigitValue(c: char): (v: nat)
    requires IsDigit(c)
    ensures v < 10
  {
    c as int - '0' as int
  }

  function DigitChar(v: nat): (c: char)
    requires v < 10
    ensures IsDigit(c) && DigitValue(c) == v
  {
    ('0' as int + v) as char
  }

  /** `Number(s)` for a string of digits. */
  function Number(s: string): nat
    requires AllDigits(s)
  {
    if s == "" then 0 else 10 * Number(s[..|s| - 1]) + DigitValue(s[|s| - 1])
  }

  /** `String(n)`. */
  function Decimal(n: nat): (s: string)
    ensures AllDigits(s) && |s| > 0
  {
    if n < 10 then [DigitChar(n)] else Decimal(n / 10) + [DigitChar(n % 10)]
  }

  lemma {:induction false} NumberOfDecimal(n: nat)
    ensures Number(Decimal(n)) == n
    ensures n < 10 ==> |Decimal(n)| == 1
    ensures n < 1000 ==> |Decimal(n)| <= 3
  {
    if n < 10 {
      assert [DigitChar(n)][..0] == "";
    } else {
      NumberOfDecimal(n / 10);
      var s := Decimal(n / 10) + [DigitChar(n % 10)];
      assert s[..|s| - 1] == Decimal(n / 10);
      if n < 1000 {
        assert n / 10 < 100;
        if n / 10 >= 10 {
          assert n / 10 / 10 < 10;
          NumberOfDecimal(n / 10 / 10);
        }
      }
    }
  }

  /** `/^\d{1,3}$/`. */
  predicate IsOctetText(s: string) {
    1 <= |s| <= 3 && AllDigits(s)
  }

  /** `/^\d{1,3}(\.\d{1,3}){3}$/`. */
  predicate IsDotted(s: string) {
    var parts := Split(s, {'.'});
    |parts| == 4 && forall i :: 0 <= i < 4 ==> IsOctetText(parts[i])
  }

  type Octet = n: nat | n < 256

  function Quad(a: Octet, b: Octet, c: Octet, d: Octet): string {
    Decimal(a) + "." + Decimal(b) + "." + Decimal(c) + "." + Decimal(d)
  }

  function QuadValue(a: Octet, b: Octet, c: Octet, d: Octet): (n: nat)
    ensures n < TWO_32
  {
    ((a * 256 + b) * 256 + c) * 256 + d
  }

  /** The canonical text of an address. */
  function Dotted(n: nat): string
    requires n < TWO_32
  {
    Quad(n / 0x100_0000, n / 0x1_0000 % 256, n / 256 % 256, n % 256)
  }

  /** `net.isIPv4`: four canonical octets. */
  predicate IsIPv4(s: string) {
    IsDotted(s) && forall i :: 0 <= i < 4 ==>
      var part := Split(s, {'.'})[i]; Number(part) < 256 && part == Decimal(Number(part))
  }

  /** `reduce((acc, octet) => acc * 256 + Number(octet), 0)`. */
  function Horner(parts: seq<string>): nat
    requires forall p :: p in parts ==> AllDigits(p)
  {
    if parts == [] then 0 else Horner(parts[..|parts| - 1]) * 256 + Number(parts[|parts| - 1])
  }

  lemma HornerSnoc(parts: seq<string>, part: string)
    requires forall p :: p in parts + [part] ==> AllDigits(p)
    ensures forall p :: p in parts ==> AllDigits(p)
    ensures Horner(parts + [part]) == Horner(parts) * 256 + Number(part)
  {
    assert forall p :: p in parts ==> p in parts + [part];
    assert (parts + [part])[..|parts|] == parts;
  }

  /** What a dotted text denotes. */
  function AddressOf(ip: string): Option<nat> {
    var parts := Split(ip, {'.'});
    if |parts| == 4 && (forall p :: p in parts ==> IsOctetText(p) && Number(p) <= 255) then Some(Horner(parts))
    else None
  }

  lemma {:induction false} HornerBound(parts: seq<string>)
    requires forall p :: p in parts ==> AllDigits(p)
    requires forall p :: p in parts ==> Number(p) <= 255
    ensures |parts| <= 4 ==> Horner(parts) < TWO_32
    ensures |parts| <= 3 ==> Horner(parts) < 0x100_0000
    ensures |parts| <= 2 ==> Horner(parts) < 0x1_0000
    ensures |parts| <= 1 ==> Horner(parts) < 0x100
  {
    if parts != [] {
      HornerBound(parts[..|parts| - 1]);
    }
  }

  /** The address of a dotted text, or `None` when it is malformed (src/common/utils/ip.ts:60-71). */
  method ParseIPv4(ip: string) returns (r: Option<nat>)
    ensures r == AddressOf(ip)
  {
    var parts := Split(ip, {'.'});
    if |parts| != 4 {
      return None;
    }
    var result := 0;
    for i := 0 to 4
      invariant forall p :: p in parts[..i] ==> IsOctetText(p) && Number(p) <= 255
      invariant result == Horner(parts[..i])
    {
      var part := parts[i];
      assert part in parts;
      if !IsOctetText(part) {
        return None;
      }
      var octet := Number(part);
      if octet > 255 {
        return None;
      }
      assert parts[..i + 1] == parts[..i] + [part];
      HornerSnoc(parts[..i], part);
      result := result * 256 + octet;
    }
    assert parts[..4] == parts;
    HornerBound(parts);
    return Some(ToUint32(result));
  }

  lemma HornerOfFour(p0: string, p1: string, p2: string, p3: string)
    requires AllDigits(p0) && AllDigits(p1) && AllDigits(p2) && AllDigits(p3)
    ensures Horner([p0, p1, p2, p3]) == ((Number(p0) * 256 + Number(p1)) * 256 + Number(p2)) * 256 + Number(p3)
  {
    var none: seq<string> := [];
    HornerSnoc(none, p0);
    HornerSnoc([p0], p1);
    HornerSnoc([p0, p1], p2);
    HornerSnoc([p0, p1, p2], p3);
    assert none + [p0] == [p0] && [p0] + [p1] == [p0, p1];
    assert [p0, p1] + [p2] == [p0, p1, p2] && [p0, p1, p2] + [p3] == [p0, p1, p2, p3];
  }

  lemma FourTexts(p: string, q: string, r: string, s: string, separator: string)
    ensures p + separator + q + separator + r + separator + s == p + separator + (q + separator + (r + separator + s))
  {
  }

  lemma SplitFour(p: string, q: string, r: string, s: string, separator: char)
    requires Without(p, separator) && Without(q, separator) && Without(r, separator) && Without(s, separator)
    ensures Split(p + [separator] + q + [separator] + r + [separator] + s, {separator}) == [p, q, r, s]
  {
    SplitWhole(s, {separator});
    SplitAt(r, s, separator);
    var rs := r + [separator] + s;
    SplitAt(q, rs, separator);
    SplitAt(p, q + [separator] + rs, separator);
    FourTexts(p, q, r, s, [separator]);
  }

  lemma SplitQuad(a: Octet, b: Octet, c: Octet, d: Octet)
    ensures Split(Quad(a, b, c, d), {'.'}) == [Decimal(a), Decimal(b), Decimal(c), Decimal(d)]
  {
    SplitFour(Decimal(a), Decimal(b), Decimal(c), Decimal(d), '.');
  }

  lemma DecimalOctet(n: Octet)
    ensures var text := Decimal(n); IsOctetText(text) && Number(text) == n
  {
    NumberOfDecimal(n);
  }

  /** Reading a text that splits into four octets. */
  lemma ParseFour(s: string, p: seq<string>)
    requires Split(s, {'.'}) == p && |p| == 4
    requires forall i :: 0 <= i < 4 ==> IsOctetText(p[i]) && Number(p[i]) < 256 && p[i] == Decimal(Number(p[i]))
    ensures forall q :: q in p ==> AllDigits(q)
    ensures IsIPv4(s) && AddressOf(s) == Some(Horner(p))
  {
  }

  /** Printing an address and parsing the text gives the address back. */
  lemma ParseQuad(a: Octet, b: Octet, c: Octet, d: Octet)
    ensures IsIPv4(Quad(a, b, c, d)) && AddressOf(Quad(a, b, c, d)) == Some(QuadValue(a, b, c, d))
  {
    var p := [Decimal(a), Decimal(b), Decimal(c), Decimal(d)];
    SplitQuad(a, b, c, d);
    DecimalOctet(a);
    DecimalOctet(b);
    DecimalOctet(c);
    DecimalOctet(d);
    ParseFour(Quad(a, b, c, d), p);
    HornerOfFour(p[0], p[1], p[2], p[3]);
  }

  lemma OctetsOf(n: nat)
    requires n < TWO_32
    ensures QuadValue(n / 0x100_0000, n / 0x1_0000 % 256, n / 256 % 256, n % 256) == n
  {
    assert n == n / 256 * 256 + n % 256;
    assert n / 256 == n / 0x1_0000 * 256 + n / 256 % 256;
    assert n / 0x1_0000 == n / 0x100_0000 * 256 + n / 0x1_0000 % 256;
  }

  lemma ParseDotted(n: nat)
    requires n < TWO_32
    ensures IsIPv4(Dotted(n)) && AddressOf(Dotted(n)) == Some(n)
  {
    ParseQuad(n / 0x100_0000, n / 0x1_0000 % 256, n / 256 % 256, n % 256);
    OctetsOf(n);
  }

  // ---------------------------------------------------------------- matching

  /** `s.trim()`. */
  function Trim(s: string): string {
    if s != "" && IsSpace(s[0]) then Trim(s[1..])
    else if s != "" && IsSpace(s[|s| - 1]) then Trim(s[..|s| - 1])
    else s
  }

  function LowerChar(c: char): char {
    if 'A' <= c <= 'Z' then (c as int + 32) as char else c
  }

  function Lower(s: string): (l: string)
    ensures |l| == |s|
  {
    seq(|s|, i requires 0 <= i < |s| => LowerChar(s[i]))
  }

  const MAPPED_PREFIX: string := "::ffff:"

  /** `normalizeIp`: strips an IPv4-mapped prefix, in either case. */
  function NormalizeIp(ip: string): string {
    if |MAPPED_PREFIX| <= |ip| && Lower(ip[..|MAPPED_PREFIX|]) == MAPPED_PREFIX && IsDotted(ip[|MAPPED_PREFIX|..])
    then ip[|MAPPED_PREFIX|..]
    else ip
  }

  /** JavaScript's `Number` on arbitrary text, as far as it yields an integer. */
  ghost predicate RightOnDecimals(toInteger: string -> Option<int>) {
    forall n: nat :: toInteger(Decimal(n)) == Some(n)
  }

  /** `ipMatches` over any conversion of the text behind the slash. */
  function IpMatches(ip: string, target: string, toInteger: string -> Option<int>): bool {
    var candidate := NormalizeIp(Trim(ip));
    var ref := Trim(target);
    var parts := Split(ref, {'/'});
    if |parts| == 1 then
      NormalizeIp(ref) == candidate
    else
      var bits := toInteger(parts[1]);
      if bits.None? || bits.value < 0 || bits.value > 32 then false
      else
        var address, base := AddressOf(candidate), AddressOf(NormalizeIp(parts[0]));
        if address.None? || base.None? then false
        else if bits.value == 0 then true
        else MaskedEqual(address.value, base.value, bits.value)
  }

  /** Text that starts and ends with a digit, as an address or a block does, has nothing to trim or strip. */
  lemma PlainText(s: string)
    requires |s| > 0 && IsDigit(s[0]) && IsDigit(s[|s| - 1])
    ensures Trim(s) == s && NormalizeIp(s) == s
  {
    if |MAPPED_PREFIX| <= |s| {
      assert Lower(s[..|MAPPED_PREFIX|])[0] == s[0];
    }
  }

  lemma QuadText(a: Octet, b: Octet, c: Octet, d: Octet)
    ensures var s := Quad(a, b, c, d);
            |s| > 0 && IsDigit(s[0]) && IsDigit(s[|s| - 1]) && forall i :: 0 <= i < |s| ==> IsDigit(s[i]) || s[i] == '.'
  {
  }

  lemma DottedText(n: nat)
    requires n < TWO_32
    ensures var s := Dotted(n);
            |s| > 0 && IsDigit(s[0]) && IsDigit(s[|s| - 1]) && Without(s, '/') && Trim(s) == s && NormalizeIp(s) == s
  {
    QuadText(n / 0x100_0000, n / 0x1_0000 % 256, n / 256 % 256, n % 256);
    PlainText(Dotted(n));
  }

  lemma BlockText(s: string, bits: nat)
    requires |s| > 0 && IsDigit(s[0]) && Without(s, '/')
    ensures var ref := s + "/" + Decimal(bits);
            Trim(ref) == ref && Split(ref, {'/'}) == [s, Decimal(bits)]
  {
    PlainText(s + "/" + Decimal(bits));
    SplitAt(s, Decimal(bits), '/');
    SplitWhole(Decimal(bits), {'/'});
  }

  lemma WholeBlock(x: nat, y: nat)
    requires x < TWO_32 && y < TWO_32
    ensures SameBlock(x, y, 0)
  {
    PowersOfTwo();
  }

  /** `ipMatches` on a dotted address and a CIDR block holds exactly when they share the block. */
  lemma MatchesBlock(n: nat, base: nat, bits: nat, toInteger: string -> Option<int>)
    requires n < TWO_32 && base < TWO_32 && bits <= 32 && RightOnDecimals(toInteger)
    ensures IpMatches(Dotted(n), Dotted(base) + "/" + Decimal(bits), toInteger) <==> SameBlock(n, base, bits)
  {
    DottedText(n);
    DottedText(base);
    BlockText(Dotted(base), bits);
    ParseDotted(n);
    ParseDotted(base);
    MaskMeansDivision(n, base, bits);
    WholeBlock(n, base);
  }

  /** A target without a slash matches exactly the address it names. */
  lemma MatchesAddress(n: nat, m: nat, toInteger: string -> Option<int>)
    requires n < TWO_32 && m < TWO_32
    ensures IpMatches(Dotted(n), Dotted(m), toInteger) <==> n == m
  {
    DottedText(n);
    DottedText(m);
    SplitWhole(Dotted(m), {'/'});
    ParseDotted(n);
    ParseDotted(m);
  }

  /** A prefix length beyond 32 matches nothing, and neither does a block match what is no address. */
  lemma MatchesNothing(ip: string, base: nat, bits: nat, toInteger: string -> Option<int>)
    requires base < TWO_32 && RightOnDecimals(toInteger)
    requires bits > 32 || AddressOf(NormalizeIp(Trim(ip))).None?
    ensures !IpMatches(ip, Dotted(base) + "/" + Decimal(bits), toInteger)
  {
    DottedText(base);
    BlockText(Dotted(base), bits);
  }

  predicate AllSpaces(s: string) {
    forall i :: 0 <= i < |s| ==> IsSpace(s[i])
  }

  /** Trimming takes the spaces off both ends, and nothing else. */
  lemma {:induction false} TrimStrips(a: string, s: string, b: string)
    requires AllSpaces(a) && AllSpaces(b) && s != "" && !IsSpace(s[0]) && !IsSpace(s[|s| - 1])
    ensures Trim(a + s + b) == s
    decreases |a| + |b|
  {
    var t := a + s + b;
    if a != "" {
      assert t[1..] == a[1..] + s + b;
      TrimStrips(a[1..], s, b);
    } else if b != "" {
      assert t == s + b && t[..|t| - 1] == a + s + b[..|b| - 1];
      TrimStrips(a, s, b[..|b| - 1]);
    } else {
      assert t == s;
    }
  }

  /** The IPv4-mapped spelling of an address reads as the address, in either case. */
  lemma MappedSpellingReads(prefix: string, n: nat)
    requires n < TWO_32 && (prefix == "::ffff:" || prefix == "::FFFF:")
    ensures NormalizeIp(prefix + Dotted(n)) == Dotted(n)
  {
    ParseDotted(n);
    var ip := prefix + Dotted(n);
    assert ip[..7] == prefix && ip[7..] == Dotted(n);
    assert Lower(prefix) == MAPPED_PREFIX;
  }

  /** The digits of a decimal number, highest first. */
  lemma SomeDecimals()
    ensures Decimal(0) == "0" && Decimal(1) == "1" && Decimal(127) == "127"
  {
    assert Decimal(12) == Decimal(1) + ['2'];
    assert Decimal(127) == Decimal(12) + ['7'];
    assert Decimal(1) == ['1'];
  }

  /** The loopback address as text. */
  lemma Loopback()
    ensures Quad(127, 0, 0, 1) == "127.0.0.1" && AddressOf("127.0.0.1") == Some(0x7f00_0001)
  {
    SomeDecimals();
    assert "127" + "." + "0" + "." + "0" + "." + "1" == "127.0.0.1";
    ParseQuad(127, 0, 0, 1);
  }
}
