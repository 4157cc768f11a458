/**
 * The verdict on an address literal (src/common/security/ssrf-guard.ts:53-87 and 116-181).
 *
 * The module `AddressVerdict` gives the verdict on every legal text, and says whether its spelling matters.
 */
module AddressGuard {
  import opened Wrappers
  import opened Ipv4
  import opened Ipv6
  import opened Sequences
  import opened Arithmetic

  // ---------------------------------------------------------------- IPv4

  type Bits = n: nat | n <= 32

  datatype Block = Block(a: Octet, b: Octet, c: Octet, d: Octet, bits: Bits)

  const BLOCKED: seq<Block> := [
    Block(0, 0, 0, 0, 8),
    Block(10, 0, 0, 0, 8),
    Block(100, 64, 0, 0, 10),
    Block(127, 0, 0, 0, 8),
    Block(169, 254, 0, 0, 16),
    Block(172, 16, 0, 0, 12),
    Block(192, 0, 0, 0, 24),
    Block(192, 168, 0, 0, 16),
    Block(198, 18, 0, 0, 15),
    Block(224, 0, 0, 0, 4),
    Block(240, 0, 0, 0, 4)
  ]

  /** `ipv4ToInt` on text that `net.isIPv4` accepts. */
  function Ipv4ToInt(ip: string): nat
    requires IsIPv4(ip)
  {
    Horner(Split(ip, {'.'}))
  }

  function BaseText(k: Block): (text: string)
    ensures IsIPv4(text)
  {
    ParseQuad(k.a, k.b, k.c, k.d);
    Quad(k.a, k.b, k.c, k.d)
  }

  predicate InCidr4(n: nat, k: Block) {
    MaskedEqual(n, Ipv4ToInt(BaseText(k)), k.bits)
  }

  predicate BlockedIPv4(n: nat) {
    exists k :: k in BLOCKED && InCidr4(n, k)
  }

  /** The verdict on text that is not an IPv6 literal. */
  predicate BlockedUnlessIPv6(ip: string) {
    if IsIPv4(ip) then BlockedIPv4(Ipv4ToInt(ip)) else true
  }

  predicate Between(low: nat, n: nat, high: nat) {
    low <= n <= high
  }

  /** The reserved addresses, as intervals. */
  predicate Reserved(n: nat) {
    || Between(QuadValue(0, 0, 0, 0), n, QuadValue(0, 255, 255, 255))
    || Between(QuadValue(10, 0, 0, 0), n, QuadValue(10, 255, 255, 255))
    || Between(QuadValue(100, 64, 0, 0), n, QuadValue(100, 127, 255, 255))
    || Between(QuadValue(127, 0, 0, 0), n, QuadValue(127, 255, 255, 255))
    || Between(QuadValue(169, 254, 0, 0), n, QuadValue(169, 254, 255, 255))
    || Between(QuadValue(172, 16, 0, 0), n, QuadValue(172, 31, 255, 255))
    || Between(QuadValue(192, 0, 0, 0), n, QuadValue(192, 0, 0, 255))
    || Between(QuadValue(192, 168, 0, 0), n, QuadValue(192, 168, 255, 255))
    || Between(QuadValue(198, 18, 0, 0), n, QuadValue(198, 19, 255, 255))
    || Between(QuadValue(224, 0, 0, 0), n, QuadValue(255, 255, 255, 255))
  }

  lemma BlockIsInterval(x: nat, base: nat, size: nat, m: nat)
    requires size > 0 && base == size * m
    ensures x / size == base / size <==> base <= x < base + size
  {
    DivideExactly(base, size, m, 0);
    var q, r := Divided(x, size);
    if q < m {
      ProductGap(size, q, m);
    } else if q > m {
      ProductGap(size, m, q);
    }
  }

  lemma CidrIsInterval(n: nat, k: Block, size: nat, m: nat, low: nat, high: nat)
    requires n < TWO_32 && size == Pow2(32 - k.bits)
    requires low == QuadValue(k.a, k.b, k.c, k.d) == size * m && high == low + size - 1
    ensures InCidr4(n, k) <==> Between(low, n, high)
  {
    ParseQuad(k.a, k.b, k.c, k.d);
    SplitQuad(k.a, k.b, k.c, k.d);
    MaskMeansDivision(n, low, k.bits);
    BlockIsInterval(n, low, size, m);
  }

  lemma BlockSizes()
    ensures Pow2(8) == 0x100 && Pow2(16) == 0x1_0000 && Pow2(17) == 0x2_0000 && Pow2(20) == 0x10_0000
    ensures Pow2(22) == 0x40_0000 && Pow2(24) == 0x100_0000 && Pow2(28) == 0x1000_0000
  {
    PowSum(4, 4);
    PowSum(8, 8);
    PowSum(4, 16);
    PowSum(8, 16);
    PowSum(4, 24);
  }

  lemma LowBlocks(n: nat)
    requires n < TWO_32
    ensures InCidr4(n, Block(0, 0, 0, 0, 8)) <==> Between(QuadValue(0, 0, 0, 0), n, QuadValue(0, 255, 255, 255))
    ensures InCidr4(n, Block(10, 0, 0, 0, 8)) <==> Between(QuadValue(10, 0, 0, 0), n, QuadValue(10, 255, 255, 255))
    ensures InCidr4(n, Block(100, 64, 0, 0, 10))
        <==> Between(QuadValue(100, 64, 0, 0), n, QuadValue(100, 127, 255, 255))
  {
    BlockSizes();
    CidrIsInterval(n, Block(0, 0, 0, 0, 8), 0x100_0000, 0, QuadValue(0, 0, 0, 0), QuadValue(0, 255, 255, 255));
    CidrIsInterval(n, Block(10, 0, 0, 0, 8), 0x100_0000, 10, QuadValue(10, 0, 0, 0), QuadValue(10, 255, 255, 255));
    CidrIsInterval(
      n, Block(100, 64, 0, 0, 10), 0x40_0000, 401, QuadValue(100, 64, 0, 0), QuadValue(100, 127, 255, 255));
  }

  lemma MiddleBlocks(n: nat)
    requires n < TWO_32
    ensures InCidr4(n, Block(127, 0, 0, 0, 8)) <==> Between(QuadValue(127, 0, 0, 0), n, QuadValue(127, 255, 255, 255))
    ensures InCidr4(n, Block(169, 254, 0, 0, 16))
        <==> Between(QuadValue(169, 254, 0, 0), n, QuadValue(169, 254, 255, 255))
    ensures InCidr4(n, Block(172, 16, 0, 0, 12)) <==> Between(QuadValue(172, 16, 0, 0), n, QuadValue(172, 31, 255, 255))
  {
    BlockSizes();
    CidrIsInterval(n, Block(127, 0, 0, 0, 8), 0x100_0000, 127, QuadValue(127, 0, 0, 0), QuadValue(127, 255, 255, 255));
    CidrIsInterval(
      n, Block(169, 254, 0, 0, 16), 0x1_0000, 43518, QuadValue(169, 254, 0, 0), QuadValue(169, 254, 255, 255));
    CidrIsInterval(
      n, Block(172, 16, 0, 0, 12), 0x10_0000, 2753, QuadValue(172, 16, 0, 0), QuadValue(172, 31, 255, 255));
  }

  lemma HighBlocks(n: nat)
    requires n < TWO_32
    ensures InCidr4(n, Block(192, 0, 0, 0, 24)) <==> Between(QuadValue(192, 0, 0, 0), n, QuadValue(192, 0, 0, 255))
    ensures InCidr4(n, Block(192, 168, 0, 0, 16))
        <==> Between(QuadValue(192, 168, 0, 0), n, QuadValue(192, 168, 255, 255))
    ensures InCidr4(n, Block(198, 18, 0, 0, 15)) <==> Between(QuadValue(198, 18, 0, 0), n, QuadValue(198, 19, 255, 255))
  {
    BlockSizes();
    CidrIsInterval(n, Block(192, 0, 0, 0, 24), 0x100, 0xC0_0000, QuadValue(192, 0, 0, 0), QuadValue(192, 0, 0, 255));
    CidrIsInterval(
      n, Block(192, 168, 0, 0, 16), 0x1_0000, 49320, QuadValue(192, 168, 0, 0), QuadValue(192, 168, 255, 255));
    CidrIsInterval(
      n, Block(198, 18, 0, 0, 15), 0x2_0000, 25353, QuadValue(198, 18, 0, 0), QuadValue(198, 19, 255, 255));
  }

  lemma UpperBlocks(n: nat)
    requires n < TWO_32
    ensures InCidr4(n, Block(224, 0, 0, 0, 4)) || InCidr4(n, Block(240, 0, 0, 0, 4))
       <==> Between(QuadValue(224, 0, 0, 0), n, QuadValue(255, 255, 255, 255))
  {
    BlockSizes();
    CidrIsInterval(n, Block(224, 0, 0, 0, 4), 0x1000_0000, 14, QuadValue(224, 0, 0, 0), QuadValue(239, 255, 255, 255));
    CidrIsInterval(n, Block(240, 0, 0, 0, 4), 0x1000_0000, 15, QuadValue(240, 0, 0, 0), QuadValue(255, 255, 255, 255));
  }

  lemma TableUnfolds(k: Block)
    ensures k in BLOCKED <==>
      || k == Block(0, 0, 0, 0, 8) || k == Block(10, 0, 0, 0, 8) || k == Block(100, 64, 0, 0, 10)
      || k == Block(127, 0, 0, 0, 8) || k == Block(169, 254, 0, 0, 16) || k == Block(172, 16, 0, 0, 12)
      || k == Block(192, 0, 0, 0, 24) || k == Block(192, 168, 0, 0, 16) || k == Block(198, 18, 0, 0, 15)
      || k == Block(224, 0, 0, 0, 4) || k == Block(240, 0, 0, 0, 4)
  {
  }

  lemma BlockedIsInside(n: nat, k: Block)
    requires n < TWO_32 && k in BLOCKED && InCidr4(n, k)
    ensures Reserved(n)
  {
    TableUnfolds(k);
    LowBlocks(n);
    MiddleBlocks(n);
    HighBlocks(n);
    UpperBlocks(n);
  }

  lemma ReservedIsBlocked(n: nat) returns (k: Block)
    requires n < TWO_32 && Reserved(n)
    ensures k in BLOCKED && InCidr4(n, k)
  {
    LowBlocks(n);
    MiddleBlocks(n);
    HighBlocks(n);
    UpperBlocks(n);
    k := if Between(QuadValue(0, 0, 0, 0), n, QuadValue(0, 255, 255, 255)) then Block(0, 0, 0, 0, 8)
      else if Between(QuadValue(10, 0, 0, 0), n, QuadValue(10, 255, 255, 255)) then Block(10, 0, 0, 0, 8)
      else if Between(QuadValue(100, 64, 0, 0), n, QuadValue(100, 127, 255, 255)) then Block(100, 64, 0, 0, 10)
      else if Between(QuadValue(127, 0, 0, 0), n, QuadValue(127, 255, 255, 255)) then Block(127, 0, 0, 0, 8)
      else if Between(QuadValue(169, 254, 0, 0), n, QuadValue(169, 254, 255, 255)) then Block(169, 254, 0, 0, 16)
      else if Between(QuadValue(172, 16, 0, 0), n, QuadValue(172, 31, 255, 255)) then Block(172, 16, 0, 0, 12)
      else if Between(QuadValue(192, 0, 0, 0), n, QuadValue(192, 0, 0, 255)) then Block(192, 0, 0, 0, 24)
      else if Between(QuadValue(192, 168, 0, 0), n, QuadValue(192, 168, 255, 255)) then Block(192, 168, 0, 0, 16)
      else if Between(QuadValue(198, 18, 0, 0), n, QuadValue(198, 19, 255, 255)) then Block(198, 18, 0, 0, 15)
      else if InCidr4(n, Block(224, 0, 0, 0, 4)) then Block(224, 0, 0, 0, 4)
      else Block(240, 0, 0, 0, 4);
    TableUnfolds(k);
  }

  /** The masked table is the union of the intervals. */
  lemma BlockedIsReserved(n: nat)
    requires n < TWO_32
    ensures BlockedIPv4(n) <==> Reserved(n)
  {
    if Reserved(n) {
      var k := ReservedIsBlocked(n);
    }
    if k :| k in BLOCKED && InCidr4(n, k) {
      BlockedIsInside(n, k);
    }
  }

  // ---------------------------------------------------------------- IPv6

  lemma {:induction false} LowBits(x: nat, width: nat)
    ensures And(x, Pow2(width) - 1) == x % Pow2(width)
    decreases width
  {
    if width == 0 {
      AndNothing(x);
    } else {
      var p := Pow2(width - 1);
      LowBits(x / 2, width - 1);
      AndOdd(x, p - 1);
      HalfRemainder(x, p, 2 * p);
    }
  }

  lemma {:induction false} AndNothing(x: nat)
    ensures And(x, 0) == 0
  {
    if x > 0 {
      AndNothing(x / 2);
    }
  }

  lemma AndOdd(x: nat, mask: nat)
    ensures And(x, 2 * mask + 1) == 2 * And(x / 2, mask) + x % 2
  {
    assert (2 * mask + 1) / 2 == mask && (2 * mask + 1) % 2 == 1;
  }

  lemma HalfRemainder(x: nat, p: nat, twice: nat)
    requires p > 0 && twice == 2 * p
    ensures x % twice == 2 * (x / 2 % p) + x % 2
  {
    var q, r := Divided(x / 2, p);
    DoubledLeft(p, q);
    var rest := 2 * r + x % 2;
    assert x == twice * q + rest;
    DivideExactly(x, twice, q, rest);
  }

  lemma LowByte(x: nat)
    ensures And(x, 0xff) == x % 256
  {
    LowBits(x, 8);
    BlockSizes();
  }

  /** Two hextets as dotted text; `x >> 8` is division here. */
  function HextetsToV4(hi: nat, lo: nat): string {
    LowByte(hi / 256);
    LowByte(hi);
    LowByte(lo / 256);
    LowByte(lo);
    Quad(And(hi / 256, 0xff), And(hi, 0xff), And(lo / 256, 0xff), And(lo, 0xff))
  }

  /** The dotted text behind `::ffff:`, whether it is written as octets or as two groups. */
  function MappedText(lower: string): Option<string> {
    if !StartsWith(lower, MAPPED_PREFIX) then None
    else
      var tail := lower[|MAPPED_PREFIX|..];
      var hextets := Split(tail, {':'});
      if IsDotted(tail) then Some(tail)
      else if |hextets| == 2 && IsGroup(hextets[0]) && IsGroup(hextets[1]) then
        Some(HextetsToV4(ParseHex(hextets[0]), ParseHex(hextets[1])))
      else None
  }

  /** Unique-local, link-local and site-local prefixes, read off the first group's text. */
  predicate LocalPrefix(first: string) {
    || StartsWith(first, "fc") || StartsWith(first, "fd")
    || (StartsWith(first, "fe") && |first| > 2 && first[2] in "89ab")
    || (StartsWith(first, "fe") && |first| > 2 && 'c' <= first[2] <= 'f')
  }

  /** The verdict on expanded hextets. */
  predicate BlockedHextets(h: Address) {
    if h[0] == 0x2002 then BlockedUnlessIPv6(HextetsToV4(h[1], h[2]))
    else if h[0] == 0x64 && h[1] == 0xff9b then BlockedUnlessIPv6(HextetsToV4(h[6], h[7]))
    else if (forall i :: 0 <= i < 6 ==> h[i] == 0) && !(h[6] == 0 && h[7] == 0) then
      BlockedUnlessIPv6(HextetsToV4(h[6], h[7]))
    else if h[0] == 0 && h[1] == 0 && h[2] == 0 && h[3] == 0 && h[4] == 0xffff && h[5] == 0 then
      BlockedUnlessIPv6(HextetsToV4(h[6], h[7]))
    else false
  }

  predicate BlockedIPv6(lower: string) {
    if lower == "::1" || lower == "::" then true
    else
      var mapped := MappedText(lower);
      if mapped.Some? then BlockedUnlessIPv6(mapped.value)
      else if LocalPrefix(Split(lower, {':'})[0]) then true
      else
        var hextets := ExpandIPv6(lower);
        if hextets.Some? then BlockedHextets(hextets.value) else false
  }

  predicate Canonical(octets: seq<string>)
    requires ValidOctets(octets)
  {
    forall i :: 0 <= i < |octets| ==> octets[i] == Decimal(Number(octets[i]))
  }

  /** `net.isIPv6` accepts exactly the legal texts with canonical octets, in either case. */
  ghost predicate IsTextOf(ip: string, f: Form) {
    Legal(f) && Canonical(f.octets) && Lower(ip) == Render(f)
  }

  ghost predicate IsIPv6(ip: string) {
    exists f :: IsTextOf(ip, f)
  }

  /**
   * `isBlockedAddress`. The recursive calls are made on dotted text only, which is never an IPv6 literal
   * (lemma `DottedIsNotIPv6`), so they are calls of `BlockedUnlessIPv6`.
   */
  ghost predicate IsBlockedAddress(ip: string) {
    if !IsIPv4(ip) && IsIPv6(ip) then BlockedIPv6(Lower(ip)) else BlockedUnlessIPv6(ip)
  }

  /** The IPv4 address that a 6to4, NAT64, IPv4-compatible or IPv4-translatable address embeds. */
  function Embedded(v: Address): Option<nat> {
    if v[..1] == [0x2002] then Some(v[1] * 0x1_0000 + v[2])
    else if
      || v[..2] == [0x64, 0xff9b]
      || (v[..6] == [0, 0, 0, 0, 0, 0] && v[6..] != [0, 0])
      || v[..6] == [0, 0, 0, 0, 0xffff, 0]
    then Some(v[6] * 0x1_0000 + v[7])
    else None
  }

  // ---------------------------------------------------------------- the embedded address

  lemma ByteOfHextet(x: nat)
    requires x < 0x1_0000
    ensures x / 256 % 256 == x / 256
  {
  }

  lemma HextetBytes(hi: nat, lo: nat)
    requires hi < 0x1_0000 && lo < 0x1_0000
    ensures HextetsToV4(hi, lo) == Quad(hi / 256, hi % 256, lo / 256, lo % 256)
  {
    LowByte(hi / 256);
    LowByte(hi);
    LowByte(lo / 256);
    LowByte(lo);
    ByteOfHextet(hi);
    ByteOfHextet(lo);
  }

  /** The verdict on two embedded hextets. */
  lemma HextetsVerdict(hi: nat, lo: nat)
    requires hi < 0x1_0000 && lo < 0x1_0000
    ensures BlockedUnlessIPv6(HextetsToV4(hi, lo)) <==> Reserved(hi * 0x1_0000 + lo)
  {
    var n := hi * 0x1_0000 + lo;
    HextetsText(hi, lo, n);
    BlockedIsReserved(n);
  }

  lemma HextetsText(hi: nat, lo: nat, n: nat)
    requires hi < 0x1_0000 && lo < 0x1_0000 && n == hi * 0x1_0000 + lo
    ensures n < TWO_32 && IsIPv4(HextetsToV4(hi, lo)) && Ipv4ToInt(HextetsToV4(hi, lo)) == n
  {
    var a, b, c, d := hi / 256, hi % 256, lo / 256, lo % 256;
    assert a < 256 && c < 256;
    HextetBytes(hi, lo);
    ParseQuad(a, b, c, d);
  }

  lemma EmbeddedCases(h: Address)
    ensures h[..1] == [0x2002] <==> h[0] == 0x2002
    ensures h[..2] == [0x64, 0xff9b] <==> h[0] == 0x64 && h[1] == 0xff9b
    ensures h[..6] == [0, 0, 0, 0, 0, 0] <==> forall i :: 0 <= i < 6 ==> h[i] == 0
    ensures h[6..] == [0, 0] <==> h[6] == 0 && h[7] == 0
    ensures h[..6] == [0, 0, 0, 0, 0xffff, 0]
       <==> h[0] == 0 && h[1] == 0 && h[2] == 0 && h[3] == 0 && h[4] == 0xffff && h[5] == 0
  {
  }

  lemma In6to4(h: Address)
    requires h[0] == 0x2002
    ensures Embedded(h) == Some(h[1] * 0x1_0000 + h[2])
    ensures BlockedHextets(h) <==> BlockedUnlessIPv6(HextetsToV4(h[1], h[2]))
  {
    assert h[..1] == [0x2002];
  }

  lemma Elsewhere(h: Address)
    requires h[0] != 0x2002
    ensures Embedded(h).Some? ==> Embedded(h).value == h[6] * 0x1_0000 + h[7]
    ensures BlockedHextets(h) <==> Embedded(h).Some? && BlockedUnlessIPv6(HextetsToV4(h[6], h[7]))
  {
    EmbeddedCases(h);
  }

  lemma BlockedHextetsVerdict(h: Address)
    requires (forall i :: 0 <= i < 8 ==> h[i] < 0x1_0000)
    ensures BlockedHextets(h) <==> Embedded(h).Some? && Reserved(Embedded(h).value)
  {
    if h[0] == 0x2002 {
      In6to4(h);
      HextetsVerdict(h[1], h[2]);
    } else {
      Elsewhere(h);
      HextetsVerdict(h[6], h[7]);
    }
  }

  // ---------------------------------------------------------------- the text in front

  lemma LowerKeepsColons(s: string)
    ensures Without(Lower(s), ':') <==> Without(s, ':')
  {
    forall i | 0 <= i < |s| ensures Lower(s)[i] == ':' <==> s[i] == ':' {
    }
  }

  lemma RenderHasColon(ip: string, first: string, rest: string)
    requires Lower(ip) == first + ":" + rest
    ensures !Without(ip, ':')
  {
    LowerKeepsColons(ip);
    assert Lower(ip)[|first|] == ':';
  }

  lemma DottedIsNotIPv6(ip: string)
    requires IsDotted(ip)
    ensures !IsIPv6(ip) && (IsBlockedAddress(ip) <==> BlockedUnlessIPv6(ip))
  {
    if f: Form :| IsTextOf(ip, f) {
      DottedHasNoColon(ip);
      var first, rest := FirstText(f);
      RenderHasColon(ip, first, rest);
    }
  }

  lemma FirstOfFull(groups: seq<string>, octets: seq<string>) returns (rest: string)
    requires Legal(Full(groups, octets))
    ensures Render(Full(groups, octets)) == groups[0] + ":" + rest && Without(groups[0], ':')
    ensures Value(Full(groups, octets))[0] == GroupValue(groups[0])
  {
    var pieces := Pieces(groups, octets);
    rest := Join(pieces[1..], ':');
    assert pieces[0] == groups[0] && |pieces| > 1;
    GroupIsPiece(groups[0]);
  }

  lemma FirstOfLeft(left: seq<string>, right: seq<string>, octets: seq<string>) returns (rest: string)
    requires Legal(Compressed(left, right, octets)) && left != []
    ensures Render(Compressed(left, right, octets)) == left[0] + ":" + rest && Without(left[0], ':')
    ensures Value(Compressed(left, right, octets))[0] == GroupValue(left[0])
  {
    var back := Join(Pieces(right, octets), ':');
    GroupIsPiece(left[0]);
    rest := if |left| == 1 then ":" + back else Join(left[1..], ':') + "::" + back;
  }

  /** The group a text starts with; none if it starts with `::`. */
  function Front(f: Form): string {
    var groups := if f.Full? then f.groups else f.left;
    if groups == [] then "" else groups[0]
  }

  /** A legal text starts with its first group, or with `::`, and a colon follows. */
  lemma FirstText(f: Form) returns (first: string, rest: string)
    requires Legal(f)
    ensures Render(f) == first + ":" + rest && Without(first, ':') && first == Front(f)
    ensures first == "" <==> f.Compressed? && f.left == []
    ensures if first == "" then Value(f)[0] == 0 else IsGroup(first) && Value(f)[0] == GroupValue(first)
  {
    match f {
      case Full(groups, octets) =>
        first := groups[0];
        rest := FirstOfFull(groups, octets);
      case Compressed(left, right, octets) =>
        if left == [] {
          first, rest := "", ":" + Join(Pieces(right, octets), ':');
          assert ZeroHextets(8 - |right| - Width(octets))[0] == 0;
        } else {
          first := left[0];
          rest := FirstOfLeft(left, right, octets);
        }
    }
  }

  /** The mapped address, written with octets or with two groups. */
  function MappedForm(more: seq<string>, octets: seq<string>): Form {
    Compressed([], ["ffff"] + more, octets)
  }

  lemma FfffValue()
    ensures IsGroup("ffff") && GroupValue("ffff") == 0xffff
  {
    HextetText(0xffff);
    assert Hex(0xffff) == "ffff";
  }

  /** Text that the `::ffff:` branch takes is a mapped address. */
  lemma MappedValue(more: seq<string>, octets: seq<string>)
    requires AllGroups(more) && ValidOctets(octets) && |more| + Width(octets) == 2
    ensures Legal(MappedForm(more, octets))
    ensures var v := Value(MappedForm(more, octets)); v[5] == 0xffff && forall i :: 0 <= i < 5 ==> v[i] == 0
  {
    FfffValue();
  }

  lemma MappedRender(more: seq<string>, octets: seq<string>)
    requires |more| + |octets| > 0
    ensures Render(MappedForm(more, octets)) == MAPPED_PREFIX + Join(Pieces(more, octets), ':')
  {
    var pieces := Pieces(more, octets);
    assert Pieces(["ffff"] + more, octets) == ["ffff"] + pieces;
    JoinCons("ffff", pieces, ':');
  }

  /** The tail behind `::ffff:` has octets below 256 when the whole text expands. */
  lemma MappedOctets(lower: string, tail: string)
    requires lower == MAPPED_PREFIX + tail && IsDotted(tail) && ExpandIPv6(lower).Some?
    ensures ValidOctets(Split(tail, {'.'}))
  {
    FindDottedTail(lower, "::ffff", tail);
    var octets := Split(tail, {'.'});
    forall i | 0 <= i < 4 ensures Number(octets[i]) < 256 {
    }
  }

  lemma MappedFormOf(lower: string, tail: string) returns (more: seq<string>, octets: seq<string>)
    requires lower == MAPPED_PREFIX + tail && ExpandIPv6(lower).Some?
    requires IsDotted(tail) || (|Split(tail, {':'})| == 2 && AllGroups(Split(tail, {':'})))
    ensures AllGroups(more) && ValidOctets(octets) && |more| + Width(octets) == 2
    ensures Render(MappedForm(more, octets)) == lower
  {
    if IsDotted(tail) {
      MappedOctets(lower, tail);
      more, octets := [], Split(tail, {'.'});
      JoinSplit(tail, '.');
    } else {
      more, octets := Split(tail, {':'}), [];
      JoinSplit(tail, ':');
    }
    MappedRender(more, octets);
  }

  lemma MappedTextIsMapped(lower: string) returns (f: Form)
    requires ExpandIPv6(lower).Some? && MappedText(lower).Some?
    ensures Legal(f) && Render(f) == lower && Value(f)[5] == 0xffff && forall i :: 0 <= i < 5 ==> Value(f)[i] == 0
  {
    var tail := TailOfMapped(lower);
    var more, octets := MappedFormOf(lower, tail);
    MappedValue(more, octets);
    f := MappedForm(more, octets);
  }

  lemma TailOfMapped(lower: string) returns (tail: string)
    requires MappedText(lower).Some?
    ensures lower == MAPPED_PREFIX + tail
    ensures IsDotted(tail) || (|Split(tail, {':'})| == 2 && AllGroups(Split(tail, {':'})))
  {
    tail := lower[|MAPPED_PREFIX|..];
    assert lower == lower[..|MAPPED_PREFIX|] + tail;
  }

  /** `::` is the text of the all-zero address. */
  lemma UnspecifiedText()
    ensures var f := Compressed([], [], []);
            Legal(f) && Render(f) == "::" && Value(f) == [0, 0, 0, 0, 0, 0, 0, 0]
  {
  }

  lemma OneGroup()
    ensures IsGroup("1") && GroupValues(["1"]) == [1]
  {
    ParseHexSnoc("", '1');
    assert "" + "1" == "1";
  }

  /** `::1` is the text of the loopback address. */
  lemma LoopbackText()
    ensures var f := Compressed([], ["1"], []);
            Legal(f) && Render(f) == "::1" && Value(f) == [0, 0, 0, 0, 0, 0, 0, 1]
  {
    OneGroup();
  }

  lemma UnspecifiedTextIs(f: Form)
    requires Legal(f) && Render(f) == "::"
    ensures Value(f) == [0, 0, 0, 0, 0, 0, 0, 0]
  {
    UnspecifiedText();
    TextDeterminesValue(f, Compressed([], [], []));
  }

  lemma LoopbackTextIs(f: Form)
    requires Legal(f) && Render(f) == "::1"
    ensures Value(f) == [0, 0, 0, 0, 0, 0, 0, 1]
  {
    LoopbackText();
    TextDeterminesValue(f, Compressed([], ["1"], []));
  }

  lemma TextIsIPv6(ip: string, f: Form)
    requires IsTextOf(ip, f)
    ensures !IsIPv4(ip) && IsIPv6(ip)
  {
    if IsIPv4(ip) {
      DottedIsNotIPv6(ip);
    }
  }

  /** Dotted text gets the verdict on the address it denotes. */
  lemma DottedVerdict(n: nat)
    requires n < TWO_32
    ensures IsBlockedAddress(Dotted(n)) <==> Reserved(n)
  {
    ParseDotted(n);
    DottedIsNotIPv6(Dotted(n));
    BlockedIsReserved(n);
  }
}
