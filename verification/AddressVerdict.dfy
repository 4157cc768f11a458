/**
 * The verdict on every legal IPv6 text, and where it depends on the spelling
 * (src/common/security/ssrf-guard.ts:122-176).
 *
 * `isBlockedAddress` reads some prefixes off the text. `VerdictIff` gives the verdict on every legal text, and
 * `SpellingMattersIff` says exactly when it is not the one that the address alone would get. The callers in the
 * same file pass host names of parsed URLs and resolved addresses; `NormalVerdictIff` is about their spelling.
 */
module AddressVerdict {
  import opened Wrappers
  import opened Ipv4
  import opened Ipv6
  import opened Sequences
  import opened AddressGuard

  // ---------------------------------------------------------------- local prefixes

  /** fc00::/7, fe80::/10 and fec0::/10. */
  predicate IsLocal(hextet: nat) {
    0xfc00 <= hextet <= 0xfdff || 0xfe80 <= hextet <= 0xfeff
  }

  /** The values that two or three digits of a local prefix denote by themselves. */
  predicate IsShortLocal(hextet: nat) {
    hextet == 0xfc || hextet == 0xfd || 0xfc0 <= hextet <= 0xfdf || 0xfe8 <= hextet <= 0xfef
  }

  /** What the digits of a local prefix have in common. */
  predicate LocalDigits(a: nat, b: nat, c: nat) {
    a == 15 && (b == 12 || b == 13 || (b == 14 && c >= 8))
  }

  lemma DigitsShow(c: char)
    requires IsHexDigit(c)
    ensures (HexValue(c) == 0 <==> c == '0') && (HexValue(c) == 12 <==> c == 'c') && (HexValue(c) == 13 <==> c == 'd')
    ensures (HexValue(c) == 14 <==> c == 'e') && (HexValue(c) == 15 <==> c == 'f')
    ensures HexValue(c) >= 8 <==> c in "89ab" || 'c' <= c <= 'f'
  {
  }

  /** The prefix tests in terms of digits. */
  lemma PrefixShows(s: string)
    requires IsGroup(s)
    ensures |s| == 1 ==> !LocalPrefix(s)
    ensures |s| == 2 ==> (LocalPrefix(s) <==> HexValue(s[0]) == 15 && (HexValue(s[1]) == 12 || HexValue(s[1]) == 13))
    ensures |s| >= 3 ==> (LocalPrefix(s) <==> LocalDigits(HexValue(s[0]), HexValue(s[1]), HexValue(s[2])))
  {
    if |s| >= 2 {
      DigitsShow(s[0]);
      DigitsShow(s[1]);
      assert s[..2] == [s[0], s[1]];
    }
    if |s| >= 3 {
      DigitsShow(s[2]);
    }
  }

  lemma OneDigit(a: char)
    requires IsHexDigit(a)
    ensures ParseHex([a]) == HexValue(a)
  {
    ParseHexSnoc("", a);
    assert "" + [a] == [a];
  }

  lemma TwoDigits(a: char, b: char)
    requires IsHexDigit(a) && IsHexDigit(b)
    ensures ParseHex([a, b]) == HexValue(a) * 16 + HexValue(b)
  {
    OneDigit(a);
    ParseHexSnoc([a], b);
    assert [a] + [b] == [a, b];
  }

  lemma ThreeDigits(a: char, b: char, c: char)
    requires IsHexDigit(a) && IsHexDigit(b) && IsHexDigit(c)
    ensures ParseHex([a, b, c]) == (HexValue(a) * 16 + HexValue(b)) * 16 + HexValue(c)
  {
    TwoDigits(a, b);
    ParseHexSnoc([a, b], c);
    assert [a, b] + [c] == [a, b, c];
  }

  lemma FourDigits(a: char, b: char, c: char, d: char)
    requires IsHexDigit(a) && IsHexDigit(b) && IsHexDigit(c) && IsHexDigit(d)
    ensures ParseHex([a, b, c, d]) == ((HexValue(a) * 16 + HexValue(b)) * 16 + HexValue(c)) * 16 + HexValue(d)
  {
    ThreeDigits(a, b, c);
    ParseHexSnoc([a, b, c], d);
    assert [a, b, c] + [d] == [a, b, c, d];
  }

  /** A number by its digits. */
  lemma DigitsOf(s: string)
    requires IsGroup(s)
    ensures |s| == 1 ==> ParseHex(s) == HexValue(s[0])
    ensures |s| == 2 ==> ParseHex(s) == HexValue(s[0]) * 16 + HexValue(s[1])
    ensures |s| == 3 ==> ParseHex(s) == (HexValue(s[0]) * 16 + HexValue(s[1])) * 16 + HexValue(s[2])
    ensures |s| == 4 ==>
      ParseHex(s) == ((HexValue(s[0]) * 16 + HexValue(s[1])) * 16 + HexValue(s[2])) * 16 + HexValue(s[3])
  {
    if |s| == 1 {
      OneDigit(s[0]);
      assert s == [s[0]];
    } else if |s| == 2 {
      TwoDigits(s[0], s[1]);
      assert s == [s[0], s[1]];
    } else if |s| == 3 {
      ThreeDigits(s[0], s[1], s[2]);
      assert s == [s[0], s[1], s[2]];
    } else {
      FourDigits(s[0], s[1], s[2], s[3]);
      assert s == [s[0], s[1], s[2], s[3]];
    }
  }

  /** The prefix tests hold for exactly the local groups, and for short ones that are written without leading zeros. */
  lemma LocalPrefixIff(s: string)
    requires IsGroup(s)
    ensures LocalPrefix(s) <==> IsLocal(ParseHex(s)) || (IsShortLocal(ParseHex(s)) && s[0] != '0')
  {
    DigitsShow(s[0]);
    PrefixShows(s);
    DigitsOf(s);
    DigitsDecide(s, ParseHex(s));
  }

  lemma DigitsDecide(s: string, v: nat)
    requires IsGroup(s) && (|s| == 1 ==> v < 16)
    requires |s| == 2 ==> v == HexValue(s[0]) * 16 + HexValue(s[1])
    requires |s| == 3 ==> v == (HexValue(s[0]) * 16 + HexValue(s[1])) * 16 + HexValue(s[2])
    requires |s| == 4 ==> v == ((HexValue(s[0]) * 16 + HexValue(s[1])) * 16 + HexValue(s[2])) * 16 + HexValue(s[3])
    ensures IsLocal(v) || (IsShortLocal(v) && HexValue(s[0]) != 0) <==>
      if |s| == 1 then false
      else if |s| == 2 then HexValue(s[0]) == 15 && (HexValue(s[1]) == 12 || HexValue(s[1]) == 13)
      else LocalDigits(HexValue(s[0]), HexValue(s[1]), HexValue(s[2]))
  {
  }

  function FirstGroup(lower: string): string {
    Split(lower, {':'})[0]
  }

  /** The text starts with a group that has no leading zero. */
  predicate StartsUnpadded(lower: string) {
    FirstGroup(lower) != "" && FirstGroup(lower)[0] != '0'
  }

  lemma PrefixIff(f: Form)
    requires Legal(f)
    ensures LocalPrefix(FirstGroup(Render(f))) <==>
      IsLocal(Value(f)[0]) || (IsShortLocal(Value(f)[0]) && StartsUnpadded(Render(f)))
  {
    var first, rest := FirstText(f);
    SplitAt(first, rest, ':');
    if first != "" {
      LocalPrefixIff(first);
    }
  }

  // ---------------------------------------------------------------- the mapped texts

  lemma PrefixAside(tail: string)
    ensures var lower := MAPPED_PREFIX + tail;
            StartsWith(lower, MAPPED_PREFIX) && lower[|MAPPED_PREFIX|..] == tail && lower != "::1" && lower != "::"
  {
  }

  lemma BlockedByMapping(tail: string, text: string)
    requires MappedText(MAPPED_PREFIX + tail) == Some(text)
    ensures BlockedIPv6(MAPPED_PREFIX + tail) <==> BlockedUnlessIPv6(text)
  {
    PrefixAside(tail);
  }

  lemma GroupsTail(hi: string, lo: string)
    requires IsGroup(hi) && IsGroup(lo)
    ensures MappedText(MAPPED_PREFIX + (hi + ":" + lo)) == Some(HextetsToV4(ParseHex(hi), ParseHex(lo)))
  {
    var tail := hi + ":" + lo;
    GroupIsPiece(hi);
    GroupIsPiece(lo);
    SplitAt(hi, lo, ':');
    SplitWhole(lo, {':'});
    assert tail[|hi|] == ':';
    NotDotted(tail);
    PrefixAside(tail);
  }

  lemma MappedGroupsVerdict(hi: string, lo: string)
    requires IsGroup(hi) && IsGroup(lo)
    ensures BlockedIPv6(MAPPED_PREFIX + (hi + ":" + lo)) <==> Reserved(GroupValue(hi) * 0x1_0000 + GroupValue(lo))
  {
    GroupsTail(hi, lo);
    BlockedByMapping(hi + ":" + lo, HextetsToV4(ParseHex(hi), ParseHex(lo)));
    HextetsVerdict(GroupValue(hi), GroupValue(lo));
  }

  lemma CanonicalIsIPv4(octets: seq<string>)
    requires ValidOctets(octets) && octets != []
    requires Canonical(octets)
    ensures IsIPv4(Join(octets, '.')) && Ipv4ToInt(Join(octets, '.')) == Horner(octets)
  {
    OctetsJoin(octets);
  }

  lemma HornerOfOctets(octets: seq<string>, hi: nat, lo: nat)
    requires ValidOctets(octets) && octets != [] && OctetPairs(octets) == [hi, lo]
    ensures forall p :: p in octets ==> AllDigits(p)
    ensures Horner(octets) == hi * 0x1_0000 + lo < TWO_32
  {
    var p, q, r, s := octets[0], octets[1], octets[2], octets[3];
    assert octets == [p, q, r, s];
    HornerOfFour(p, q, r, s);
    FourOctets(Number(p), Number(q), Number(r), Number(s));
  }

  lemma FourOctets(a: Octet, b: Octet, c: Octet, d: Octet)
    ensures ((a * 256 + b) * 256 + c) * 256 + d == (a * 256 + b) * 0x1_0000 + (c * 256 + d) < TWO_32
  {
  }

  lemma TextVerdict(text: string, n: nat)
    requires IsIPv4(text) && Ipv4ToInt(text) == n < TWO_32
    ensures BlockedIPv6(MAPPED_PREFIX + text) <==> Reserved(n)
  {
    PrefixAside(text);
    BlockedByMapping(text, text);
    BlockedIsReserved(n);
  }

  lemma VerdictOnLower(ip: string, f: Form, lower: string)
    requires IsTextOf(ip, f) && Render(f) == lower
    ensures IsBlockedAddress(ip) <==> BlockedIPv6(lower)
  {
    TextIsIPv6(ip, f);
  }

  lemma MappedTails(more: seq<string>, octets: seq<string>)
    requires |more| + Width(octets) == 2
    ensures octets == [] ==>
        && more == [more[0], more[1]]
        && Render(MappedForm(more, octets)) == MAPPED_PREFIX + (more[0] + ":" + more[1])
    ensures octets != [] ==> more == [] && Render(MappedForm(more, octets)) == MAPPED_PREFIX + Join(octets, '.')
  {
    MappedRender(more, octets);
    if octets == [] {
      assert more[1..] == [more[1]];
    } else {
      assert Pieces(more, octets) == [Join(octets, '.')];
    }
  }

  lemma CanonicalText(octets: seq<string>, hi: nat, lo: nat) returns (text: string, n: nat)
    requires ValidOctets(octets) && octets != [] && OctetPairs(octets) == [hi, lo] && Canonical(octets)
    ensures text == Join(octets, '.') && n == hi * 0x1_0000 + lo
    ensures IsIPv4(text) && Ipv4ToInt(text) == n < TWO_32
  {
    text, n := Join(octets, '.'), hi * 0x1_0000 + lo;
    CanonicalIsIPv4(octets);
    HornerOfOctets(octets, hi, lo);
  }

  /** Both mapped texts, `::ffff:a.b.c.d` and `::ffff:x:y`, get the verdict on the address behind the prefix. */
  lemma MappedVerdict(ip: string, f: Form, more: seq<string>, octets: seq<string>, hi: nat, lo: nat)
    requires |more| + Width(octets) == 2 && IsTextOf(ip, f) && f == MappedForm(more, octets)
    requires AllGroups(more) && GroupValues(more) + OctetPairs(octets) == [hi, lo]
    ensures IsBlockedAddress(ip) <==> Reserved(hi * 0x1_0000 + lo)
  {
    VerdictOnLower(ip, f, Render(f));
    MappedTextVerdict(more, octets, hi, lo);
  }

  lemma MappedTextVerdict(more: seq<string>, octets: seq<string>, hi: nat, lo: nat)
    requires AllGroups(more) && ValidOctets(octets) && Canonical(octets)
    requires |more| + Width(octets) == 2 && GroupValues(more) + OctetPairs(octets) == [hi, lo]
    ensures BlockedIPv6(Render(MappedForm(more, octets))) <==> Reserved(hi * 0x1_0000 + lo)
  {
    MappedTails(more, octets);
    if octets == [] {
      assert GroupValues(more) == [hi, lo];
      MappedGroupsVerdict(more[0], more[1]);
    } else {
      assert OctetPairs(octets) == [hi, lo];
      MappedOctetsVerdict(octets, hi, lo);
    }
  }

  lemma MappedOctetsVerdict(octets: seq<string>, hi: nat, lo: nat)
    requires ValidOctets(octets) && octets != [] && OctetPairs(octets) == [hi, lo] && Canonical(octets)
    ensures BlockedIPv6(MAPPED_PREFIX + Join(octets, '.')) <==> Reserved(hi * 0x1_0000 + lo)
  {
    var text, n := CanonicalText(octets, hi, lo);
    TextVerdict(text, n);
  }

  // ---------------------------------------------------------------- texts that start with ::ffff:

  /** ::ffff:0:0/96. */
  predicate IsMapped(v: Address) {
    v[0] == 0 && v[1] == 0 && v[2] == 0 && v[3] == 0 && v[4] == 0 && v[5] == 0xffff
  }

  predicate IsUnspecified(v: Address) {
    forall i :: 0 <= i < 8 ==> v[i] == 0
  }

  function Low32(v: Address): nat {
    v[6] * 0x1_0000 + v[7]
  }

  lemma PiecesAreTight(groups: seq<string>, octets: seq<string>)
    requires AllGroups(groups) && ValidOctets(octets)
    ensures forall i :: 0 <= i < |Pieces(groups, octets)| ==> IsPiece(Pieces(groups, octets)[i])
  {
    GroupsArePieces(groups);
    if octets != [] {
      OctetsJoin(octets);
      DottedHasNoColon(Join(octets, '.'));
    }
  }

  /** The first piece is what stands in front of the first colon. */
  lemma FirstPiece(groups: seq<string>, octets: seq<string>, first: string, tail: string)
    requires AllGroups(groups) && ValidOctets(octets) && Without(first, ':')
    requires Join(Pieces(groups, octets), ':') == first + ":" + tail
    ensures groups != [] && groups[0] == first
  {
    var pieces := Pieces(groups, octets);
    PiecesAreTight(groups, octets);
    if pieces != [] {
      SplitJoin(pieces, ':');
    }
    SplitAt(first, tail, ':');
  }

  /** Where the groups behind `::` stand in the address. */
  lemma FirstBehindZeros(right: seq<string>, octets: seq<string>)
    requires Legal(Compressed([], right, octets)) && right != []
    ensures var v, k := Value(Compressed([], right, octets)), 8 - |right| - Width(octets);
            v[k] == GroupValue(right[0]) && forall i :: 0 <= i < k ==> v[i] == 0
  {
  }

  /** A legal text of a mapped address that starts with `::ffff:` is one of the two mapped forms. */
  lemma MappedIsForm(f: Form)
    requires Legal(f) && IsMapped(Value(f)) && StartsWith(Render(f), MAPPED_PREFIX)
    ensures f.Compressed? && f.right != [] && |f.right[1..]| + Width(f.octets) == 2
    ensures f == MappedForm(f.right[1..], f.octets) && AllGroups(f.right[1..])
  {
    PrefixShape(f, Render(f));
    FfffFirst(f.right, f.octets);
    assert f.right == ["ffff"] + f.right[1..];
  }

  /** Text that starts with `::ffff:` has nothing in front of `::` and `ffff` behind it. */
  lemma PrefixShape(f: Form, lower: string)
    requires Legal(f) && lower == Render(f) && StartsWith(lower, MAPPED_PREFIX)
    ensures f.Compressed? && f.left == [] && f.right != [] && f.right[0] == "ffff"
  {
    assert lower[0] == ':' by {
      assert lower[0] == MAPPED_PREFIX[0];
    }
    StartsCompressed(f);
    BehindPrefix(Join(Pieces(f.right, f.octets), ':'), lower);
    FirstPiece(f.right, f.octets, "ffff", lower[|MAPPED_PREFIX|..]);
  }

  /** Behind `::ffff:` in a mapped address stand two more groups. */
  lemma FfffFirst(right: seq<string>, octets: seq<string>)
    requires Legal(Compressed([], right, octets)) && right != [] && right[0] == "ffff"
    requires IsMapped(Value(Compressed([], right, octets)))
    ensures |right| + Width(octets) == 3
  {
    FirstBehindZeros(right, octets);
    FfffValue();
    FirstNonZero(Value(Compressed([], right, octets)), 8 - |right| - Width(octets));
  }

  lemma FirstNonZero(v: Address, k: nat)
    requires IsMapped(v) && k < 8 && v[k] == 0xffff && forall i :: 0 <= i < k ==> v[i] == 0
    ensures k == 5
  {
    assert v[5] == 0xffff;
  }

  lemma BehindPrefix(back: string, lower: string)
    requires lower == "" + "::" + back && StartsWith(lower, MAPPED_PREFIX)
    ensures back == "ffff" + ":" + lower[|MAPPED_PREFIX|..]
  {
    assert lower == MAPPED_PREFIX + lower[|MAPPED_PREFIX|..];
    assert back == lower[2..];
  }

  lemma StartsWithColon(first: string, rest: string)
    requires Without(first, ':')
    ensures (first + ":" + rest)[0] == ':' <==> first == ""
  {
  }

  lemma StartsCompressed(f: Form)
    requires Legal(f) && Render(f)[0] == ':'
    ensures f.Compressed? && f.left == []
  {
    var first, rest := FirstText(f);
    StartsWithColon(first, rest);
  }

  lemma ValuesOfMapped(more: seq<string>, octets: seq<string>)
    requires AllGroups(more) && ValidOctets(octets) && |more| + Width(octets) == 2
    ensures Legal(MappedForm(more, octets))
    ensures var v := Value(MappedForm(more, octets)); GroupValues(more) + OctetPairs(octets) == [v[6], v[7]]
  {
    MappedValue(more, octets);
  }

  /** The verdict on a legal text of a mapped address: only behind a literal `::ffff:` is the embedded address read. */
  lemma MappedVerdictIff(ip: string, f: Form)
    requires IsTextOf(ip, f) && IsMapped(Value(f))
    ensures IsBlockedAddress(ip) <==> StartsWith(Lower(ip), MAPPED_PREFIX) && Reserved(Low32(Value(f)))
  {
    if StartsWith(Lower(ip), MAPPED_PREFIX) {
      MappedBehindPrefix(ip, f);
    } else {
      MappedElsewhere(ip, f);
    }
  }

  lemma MappedBehindPrefix(ip: string, f: Form)
    requires IsTextOf(ip, f) && IsMapped(Value(f)) && StartsWith(Lower(ip), MAPPED_PREFIX)
    ensures IsBlockedAddress(ip) <==> Reserved(Low32(Value(f)))
  {
    MappedIsForm(f);
    MappedFormVerdict(ip, f, f.right[1..], f.octets);
  }

  lemma MappedFormVerdict(ip: string, f: Form, more: seq<string>, octets: seq<string>)
    requires IsTextOf(ip, f) && f == MappedForm(more, octets)
    requires AllGroups(more) && ValidOctets(octets) && |more| + Width(octets) == 2
    ensures IsBlockedAddress(ip) <==> Reserved(Low32(Value(f)))
  {
    ValuesOfMapped(more, octets);
    MappedVerdict(ip, f, more, octets, Value(f)[6], Value(f)[7]);
  }

  lemma MappedElsewhere(ip: string, f: Form)
    requires IsTextOf(ip, f) && IsMapped(Value(f)) && !StartsWith(Lower(ip), MAPPED_PREFIX)
    ensures !IsBlockedAddress(ip)
  {
    NotShort(f);
    UnmappedVerdict(ip, f);
    PrefixIff(f);
    EmbeddedCases(Value(f));
  }

  /** `::` and `::1` denote no mapped address. */
  lemma NotShort(f: Form)
    requires Legal(f) && IsMapped(Value(f))
    ensures Render(f) != "::" && Render(f) != "::1"
  {
    ShortTextValue(f);
  }

  lemma ZerosAreUnspecified(v: Address)
    requires v == [0, 0, 0, 0, 0, 0, 0, 0]
    ensures IsUnspecified(v)
  {
  }

  lemma ShortTextValue(f: Form)
    requires Legal(f)
    ensures Render(f) == "::" ==> IsUnspecified(Value(f))
    ensures Render(f) == "::1" ==> Value(f) == [0, 0, 0, 0, 0, 0, 0, 1]
  {
    if Render(f) == "::" {
      UnspecifiedTextIs(f);
      ZerosAreUnspecified(Value(f));
    } else if Render(f) == "::1" {
      LoopbackTextIs(f);
    }
  }

  /** The branches behind the `::ffff:` one. */
  lemma UnmappedVerdict(ip: string, f: Form)
    requires IsTextOf(ip, f) && Render(f) != "::" && Render(f) != "::1" && MappedText(Render(f)).None?
    ensures IsBlockedAddress(ip) <==>
      LocalPrefix(FirstGroup(Render(f))) || (Embedded(Value(f)).Some? && Reserved(Embedded(Value(f)).value))
  {
    TextIsIPv6(ip, f);
    ExpandInvertsRender(f);
    BlockedHextetsVerdict(Value(f));
  }

  /** Text that the `::ffff:` branch takes is a mapped address. */
  lemma TakenIsMapped(f: Form)
    requires Legal(f) && MappedText(Render(f)).Some?
    ensures IsMapped(Value(f)) && StartsWith(Render(f), MAPPED_PREFIX)
  {
    ExpandInvertsRender(f);
    var g := MappedTextIsMapped(Render(f));
    TextDeterminesValue(f, g);
  }

  // ---------------------------------------------------------------- every legal text

  /** The verdict that the address alone would get. */
  predicate ValueVerdict(v: Address) {
    || IsLocal(v[0])
    || IsUnspecified(v)
    || (IsMapped(v) && Reserved(Low32(v)))
    || (Embedded(v).Some? && Reserved(Embedded(v).value))
  }

  /** The verdict on a text of an address. */
  predicate TextVerdictOf(lower: string, v: Address) {
    if IsUnspecified(v) then lower == "::"
    else if IsMapped(v) then StartsWith(lower, MAPPED_PREFIX) && Reserved(Low32(v))
    else
      || IsLocal(v[0])
      || (IsShortLocal(v[0]) && StartsUnpadded(lower))
      || (Embedded(v).Some? && Reserved(Embedded(v).value))
  }

  /** Some branch reads this text differently from other texts of the same address. */
  predicate SpellingMatters(lower: string, v: Address) {
    || (IsUnspecified(v) && lower != "::")
    || (IsMapped(v) && Reserved(Low32(v)) && !StartsWith(lower, MAPPED_PREFIX))
    || (IsShortLocal(v[0]) && StartsUnpadded(lower))
  }

  lemma KindsAreApart(v: Address)
    ensures IsUnspecified(v) ==> !IsMapped(v) && Embedded(v).None? && !IsLocal(v[0]) && !IsShortLocal(v[0])
    ensures IsMapped(v) ==> Embedded(v).None? && !IsLocal(v[0]) && !IsShortLocal(v[0])
    ensures IsLocal(v[0]) ==> Embedded(v).None? && !IsShortLocal(v[0])
    ensures IsShortLocal(v[0]) ==> Embedded(v).None?
  {
    EmbeddedCases(v);
  }

  /** The all-zero address is blocked in one spelling. */
  lemma UnspecifiedVerdictIff(ip: string, f: Form)
    requires IsTextOf(ip, f) && IsUnspecified(Value(f))
    ensures IsBlockedAddress(ip) <==> Lower(ip) == "::"
  {
    if Lower(ip) == "::" {
      TextIsIPv6(ip, f);
    } else {
      UnspecifiedElsewhere(ip, f);
    }
  }

  lemma UnspecifiedElsewhere(ip: string, f: Form)
    requires IsTextOf(ip, f) && IsUnspecified(Value(f)) && Lower(ip) != "::"
    ensures !IsBlockedAddress(ip)
  {
    NotTaken(f);
    KindsAreApart(Value(f));
    UnmappedVerdict(ip, f);
    PrefixIff(f);
  }

  /** A text of the all-zero address is not `::1`, and does not start with `::ffff:`. */
  lemma NotTaken(f: Form)
    requires Legal(f) && IsUnspecified(Value(f))
    ensures Render(f) != "::1" && MappedText(Render(f)).None?
  {
    KindsAreApart(Value(f));
    LoopbackIsSpecified(Value(f));
    if Render(f) == "::1" {
      LoopbackTextIs(f);
    } else if MappedText(Render(f)).Some? {
      TakenIsMapped(f);
    }
  }

  lemma LoopbackIsSpecified(v: Address)
    ensures v == [0, 0, 0, 0, 0, 0, 0, 1] ==> !IsUnspecified(v)
  {
    if v == [0, 0, 0, 0, 0, 0, 0, 1] {
      assert v[7] == 1;
    }
  }

  /** An address that is neither mapped nor all zeros: the prefix tests, then the embedded address. */
  lemma OtherVerdictIff(ip: string, f: Form)
    requires IsTextOf(ip, f) && !IsMapped(Value(f)) && !IsUnspecified(Value(f))
    ensures IsBlockedAddress(ip) <==>
      || IsLocal(Value(f)[0])
      || (IsShortLocal(Value(f)[0]) && StartsUnpadded(Lower(ip)))
      || (Embedded(Value(f)).Some? && Reserved(Embedded(Value(f)).value))
  {
    ShortTextValue(f);
    if Render(f) == "::1" {
      TextIsIPv6(ip, f);
      LoopbackIsEmbedded(Value(f));
    } else {
      if MappedText(Render(f)).Some? {
        TakenIsMapped(f);
      }
      UnmappedVerdict(ip, f);
      PrefixIff(f);
    }
  }

  lemma LoopbackIsEmbedded(v: Address)
    requires v == [0, 0, 0, 0, 0, 0, 0, 1]
    ensures Embedded(v) == Some(1)
  {
    EmbeddedCases(v);
  }

  /** The verdict on every legal text. */
  lemma VerdictIff(ip: string, f: Form)
    requires IsTextOf(ip, f)
    ensures IsBlockedAddress(ip) <==> TextVerdictOf(Lower(ip), Value(f))
  {
    if IsUnspecified(Value(f)) {
      UnspecifiedVerdictIff(ip, f);
    } else if IsMapped(Value(f)) {
      MappedVerdictIff(ip, f);
    } else {
      OtherVerdictIff(ip, f);
    }
  }

  /** The verdict on a legal text is the one on its address if and only if no branch reads its spelling. */
  lemma SpellingMattersIff(ip: string, f: Form)
    requires IsTextOf(ip, f)
    ensures (IsBlockedAddress(ip) <==> ValueVerdict(Value(f))) <==> !SpellingMatters(Lower(ip), Value(f))
  {
    VerdictIff(ip, f);
    KindsAreApart(Value(f));
  }

  /**
   * Every text form of a 6to4, NAT64, IPv4-compatible or IPv4-translatable address gets the verdict on the IPv4
   * address it embeds.
   */
  lemma EmbeddedVerdict(ip: string, f: Form)
    requires IsTextOf(ip, f) && Embedded(Value(f)).Some?
    ensures IsBlockedAddress(ip) <==> Reserved(Embedded(Value(f)).value)
  {
    VerdictIff(ip, f);
    KindsAreApart(Value(f));
  }

  /** Every text form of a local address is blocked. */
  lemma LocalVerdict(ip: string, f: Form)
    requires IsTextOf(ip, f) && IsLocal(Value(f)[0])
    ensures IsBlockedAddress(ip)
  {
    VerdictIff(ip, f);
    KindsAreApart(Value(f));
  }

  /** In 2002::/16 the second and third group hold the IPv4 address. */
  lemma SixToFourVerdict(ip: string, f: Form)
    requires IsTextOf(ip, f) && Value(f)[0] == 0x2002
    ensures IsBlockedAddress(ip) <==> Reserved(Value(f)[1] * 0x1_0000 + Value(f)[2])
  {
    In6to4(Value(f));
    EmbeddedVerdict(ip, f);
  }

  lemma EmbeddedLast(v: Address)
    requires
      || (v[0] == 0x64 && v[1] == 0xff9b)
      || (v[0] == 0 && v[1] == 0 && v[2] == 0 && v[3] == 0 && v[4] == 0xffff && v[5] == 0)
      || (v[0] == v[1] == v[2] == v[3] == v[4] == v[5] == 0 && !(v[6] == 0 && v[7] == 0))
    ensures Embedded(v) == Some(v[6] * 0x1_0000 + v[7])
  {
    EmbeddedCases(v);
  }

  /** In 64:ff9b::/32, ::ffff:0:0:0/96 and ::/96 but for :: the last two groups hold it. */
  lemma LastGroupsVerdict(ip: string, f: Form, v: Address)
    requires IsTextOf(ip, f) && Value(f) == v
    requires
      || (v[0] == 0x64 && v[1] == 0xff9b)
      || (v[0] == 0 && v[1] == 0 && v[2] == 0 && v[3] == 0 && v[4] == 0xffff && v[5] == 0)
      || (v[0] == v[1] == v[2] == v[3] == v[4] == v[5] == 0 && !(v[6] == 0 && v[7] == 0))
    ensures IsBlockedAddress(ip) <==> Reserved(v[6] * 0x1_0000 + v[7])
  {
    EmbeddedLast(v);
    EmbeddedVerdict(ip, f);
  }

  /** The local ranges fc00::/7 and fe80::/9. */
  lemma LocalKinds(ip: string, f: Form)
    requires IsTextOf(ip, f)
    requires 0xfc00 <= Value(f)[0] <= 0xfdff || 0xfe80 <= Value(f)[0] <= 0xfeff
    ensures IsBlockedAddress(ip)
  {
    LocalVerdict(ip, f);
  }

  // ---------------------------------------------------------------- the recommended spelling

  /** The groups that are written out. */
  function WrittenGroups(f: Form): seq<string> {
    match f
    case Full(groups, _) => groups
    case Compressed(left, right, _) => left + right
  }

  /** How many groups `::` stands for. */
  function Gap(f: Form): nat
    requires Legal(f)
  {
    match f
    case Full(_, _) => 0
    case Compressed(left, right, octets) => 8 - |left| - |right| - Width(octets)
  }

  predicate ZeroRun(v: Address, at: nat, length: nat) {
    at + length <= 8 && forall i :: at <= i < at + length ==> v[i] == 0
  }

  /**
   * As section 4 of RFC 5952 asks: no leading zeros, and no run of two or more zero groups that is longer than what
   * `::` stands for.
   */
  ghost predicate IsNormal(f: Form)
    requires Legal(f)
  {
    && (forall g :: g in WrittenGroups(f) ==> |g| == 1 || g[0] != '0')
    && (forall at, length :: length >= 2 && ZeroRun(Value(f), at, length) ==> length <= Gap(f))
  }

  /** The groups that `::` stands for are zero, and a zero group in front of it is written. */
  lemma GapIsZero(f: Form)
    requires Legal(f) && f.Compressed?
    ensures |f.left| + Gap(f) <= 8 && ZeroRun(Value(f), |f.left|, Gap(f))
  {
  }

  lemma NormalUnspecified(f: Form)
    requires Legal(f) && IsNormal(f) && IsUnspecified(Value(f))
    ensures Render(f) == "::"
  {
    assert ZeroRun(Value(f), 0, 8);
  }

  lemma FfffText(s: string)
    requires IsGroup(s) && ParseHex(s) == 0xffff
    ensures s == "ffff"
  {
    DigitsOf(s);
    forall i | 0 <= i < |s| {
      DigitsShow(s[i]);
    }
  }

  lemma NormalMappedShape(f: Form)
    requires Legal(f) && IsNormal(f) && IsMapped(Value(f))
    ensures f.Compressed? && f.left == [] && |f.right| + Width(f.octets) == 3
  {
    MappedRun(Value(f));
    GapIsZero(f);
    OnlyMappedRun(Value(f), |f.left|, Gap(f));
  }

  lemma MappedRun(v: Address)
    requires IsMapped(v)
    ensures ZeroRun(v, 0, 5)
  {
  }

  lemma OnlyMappedRun(v: Address, at: nat, length: nat)
    requires IsMapped(v) && ZeroRun(v, at, length) && length >= 5
    ensures at == 0 && length == 5
  {
    assert v[5] == 0xffff;
  }

  lemma NormalMappedFirst(right: seq<string>, octets: seq<string>)
    requires Legal(Compressed([], right, octets)) && |right| + Width(octets) == 3
    requires IsMapped(Value(Compressed([], right, octets)))
    ensures right != [] && right[0] == "ffff"
  {
    FirstBehindZeros(right, octets);
    FfffText(right[0]);
  }

  lemma NormalMapped(f: Form)
    requires Legal(f) && IsNormal(f) && IsMapped(Value(f))
    ensures StartsWith(Render(f), MAPPED_PREFIX)
  {
    NormalMappedShape(f);
    NormalMappedFirst(f.right, f.octets);
    MappedFormStarts(f.right[1..], f.octets);
    assert f.right == ["ffff"] + f.right[1..];
  }

  lemma MappedFormStarts(more: seq<string>, octets: seq<string>)
    requires |more| + |octets| > 0
    ensures StartsWith(Render(MappedForm(more, octets)), MAPPED_PREFIX)
  {
    MappedRender(more, octets);
  }

  lemma NormalIsUnpadded(f: Form)
    requires Legal(f) && IsNormal(f) && Value(f)[0] != 0
    ensures StartsUnpadded(Render(f))
  {
    var first, rest := FirstText(f);
    SplitAt(first, rest, ':');
    DigitsOf(first);
    assert first in WrittenGroups(f);
    assert |first| == 1 ==> first == [first[0]];
  }

  /** In the recommended spelling the verdict follows from the address; short local prefixes are blocked as well. */
  lemma NormalVerdictIff(ip: string, f: Form)
    requires IsTextOf(ip, f) && IsNormal(f)
    ensures IsBlockedAddress(ip) <==> ValueVerdict(Value(f)) || IsShortLocal(Value(f)[0])
  {
    VerdictIff(ip, f);
    NormalText(f);
    NormalDecides(Lower(ip), Value(f));
  }

  lemma NormalText(f: Form)
    requires Legal(f) && IsNormal(f)
    ensures IsUnspecified(Value(f)) ==> Render(f) == "::"
    ensures IsMapped(Value(f)) ==> StartsWith(Render(f), MAPPED_PREFIX)
    ensures Value(f)[0] != 0 ==> StartsUnpadded(Render(f))
  {
    if IsUnspecified(Value(f)) {
      NormalUnspecified(f);
    } else if IsMapped(Value(f)) {
      NormalMapped(f);
    } else if Value(f)[0] != 0 {
      NormalIsUnpadded(f);
    }
  }

  lemma NormalDecides(lower: string, v: Address)
    requires IsUnspecified(v) ==> lower == "::"
    requires IsMapped(v) ==> StartsWith(lower, MAPPED_PREFIX)
    requires v[0] != 0 ==> StartsUnpadded(lower)
    ensures TextVerdictOf(lower, v) <==> ValueVerdict(v) || IsShortLocal(v[0])
  {
    KindsAreApart(v);
  }

  // ---------------------------------------------------------------- spellings that differ

  lemma LowerIsIdentity(s: string)
    requires forall i :: 0 <= i < |s| ==> !('A' <= s[i] <= 'Z')
    ensures Lower(s) == s
  {
  }

  /** A lower-case text is a text of the form it renders. */
  lemma LowerText(ip: string, f: Form)
    requires Legal(f) && f.octets == [] && Render(f) == ip
    requires forall i :: 0 <= i < |ip| ==> !('A' <= ip[i] <= 'Z')
    ensures IsTextOf(ip, f)
  {
    LowerIsIdentity(ip);
  }

  lemma KnownGroups()
    ensures IsGroup("0") && GroupValue("0") == 0 && IsGroup("1") && GroupValue("1") == 1
    ensures IsGroup("7f00") && GroupValue("7f00") == 0x7f00
    ensures IsGroup("fc") && GroupValue("fc") == 0xfc && IsGroup("00fc") && GroupValue("00fc") == 0xfc
  {
    OneDigit('0');
    OneDigit('1');
    TwoDigits('f', 'c');
    FourDigits('7', 'f', '0', '0');
    FourDigits('0', '0', 'f', 'c');
  }

  lemma ZeroText()
    ensures var f := Compressed(["0"], [], []);
            IsTextOf("0::", f) && Value(f) == [0, 0, 0, 0, 0, 0, 0, 0]
  {
    DigitsOf("0");
    LowerText("0::", Compressed(["0"], [], []));
  }

  /** `0::` is not blocked, `::` is, and they denote the same address. */
  lemma UnspecifiedSpellings()
    ensures IsTextOf("::", Compressed([], [], [])) && IsBlockedAddress("::")
    ensures IsTextOf("0::", Compressed(["0"], [], [])) && !IsBlockedAddress("0::")
    ensures Value(Compressed(["0"], [], [])) == Value(Compressed([], [], []))
  {
    ZeroText();
    UnspecifiedText();
    LowerIsIdentity("::");
    UnspecifiedVerdictIff("::", Compressed([], [], []));
    UnspecifiedVerdictIff("0::", Compressed(["0"], [], []));
  }

  lemma MappedLoopbackRender()
    ensures Render(Compressed(["0"], ["ffff", "7f00", "1"], [])) == "0::ffff:7f00:1"
  {
    JoinCons("7f00", ["1"], ':');
    JoinCons("ffff", ["7f00", "1"], ':');
    assert ["ffff"] + (["7f00"] + ["1"]) == ["ffff", "7f00", "1"];
  }

  lemma ThreeGroups(a: string, b: string, c: string)
    requires IsGroup(a) && IsGroup(b) && IsGroup(c)
    ensures AllGroups([a, b, c]) && GroupValues([a, b, c]) == [GroupValue(a), GroupValue(b), GroupValue(c)]
  {
  }

  lemma ValueBehindZero(right: seq<string>)
    requires AllGroups(right) && |right| == 3
    ensures var f := Compressed(["0"], right, []);
            Legal(f) && Value(f) == [0, 0, 0, 0, 0] + GroupValues(right)
  {
    KnownGroups();
    FiveZeros(GroupValues(["0"]), ZeroHextets(4), GroupValues(right));
  }

  lemma FiveZeros(one: seq<nat>, four: seq<nat>, rest: seq<nat>)
    requires one == [0] && four == [0, 0, 0, 0]
    ensures one + four + rest + [] == [0, 0, 0, 0, 0] + rest
  {
  }

  lemma MappedLoopbackValue()
    ensures var f := Compressed(["0"], ["ffff", "7f00", "1"], []);
            Legal(f) && Value(f) == [0, 0, 0, 0, 0, 0xffff, 0x7f00, 1]
  {
    FfffValue();
    KnownGroups();
    ThreeGroups("ffff", "7f00", "1");
    ValueBehindZero(["ffff", "7f00", "1"]);
  }

  lemma MappedLoopbackText()
    ensures var f := Compressed(["0"], ["ffff", "7f00", "1"], []);
            IsTextOf("0::ffff:7f00:1", f) && Value(f) == [0, 0, 0, 0, 0, 0xffff, 0x7f00, 1]
  {
    MappedLoopbackRender();
    MappedLoopbackValue();
    LowerText("0::ffff:7f00:1", Compressed(["0"], ["ffff", "7f00", "1"], []));
  }

  lemma MappedLoopback(v: Address)
    requires v == [0, 0, 0, 0, 0, 0xffff, 0x7f00, 1]
    ensures IsMapped(v) && Low32(v) == QuadValue(127, 0, 0, 1) && Reserved(Low32(v))
  {
  }

  /** `0::ffff:7f00:1` is not blocked, although it denotes the mapped 127.0.0.1, which is reserved. */
  lemma MappedSpelling()
    ensures var f := Compressed(["0"], ["ffff", "7f00", "1"], []);
            && IsTextOf("0::ffff:7f00:1", f)
            && IsMapped(Value(f)) && Low32(Value(f)) == QuadValue(127, 0, 0, 1) && Reserved(Low32(Value(f)))
            && !IsBlockedAddress("0::ffff:7f00:1")
  {
    MappedLoopbackText();
    MappedLoopback([0, 0, 0, 0, 0, 0xffff, 0x7f00, 1]);
    MappedVerdictIff("0::ffff:7f00:1", Compressed(["0"], ["ffff", "7f00", "1"], []));
  }

  lemma ShortValue(first: string)
    requires first == "fc" || first == "00fc"
    ensures var f := Compressed([first], ["1"], []);
            Legal(f) && Value(f) == [0xfc, 0, 0, 0, 0, 0, 0, 1]
  {
    KnownGroups();
  }

  lemma ShortText(first: string)
    requires first == "fc" || first == "00fc"
    ensures var f := Compressed([first], ["1"], []);
            IsTextOf(first + "::1", f) && Value(f) == [0xfc, 0, 0, 0, 0, 0, 0, 1]
    ensures FirstGroup(first + "::1") == first
  {
    ShortValue(first);
    LowerText(first + "::1", Compressed([first], ["1"], []));
    SplitAt(first, ":1", ':');
    assert first + ":" + ":1" == first + "::1";
  }

  /** `fc::1` is blocked by its prefix, `00fc::1` is not, and both denote the same address, which is not local. */
  lemma ShortLocalSpellings()
    ensures var f, g := Compressed(["fc"], ["1"], []), Compressed(["00fc"], ["1"], []);
            && IsTextOf("fc::1", f) && IsBlockedAddress("fc::1")
            && IsTextOf("00fc::1", g) && !IsBlockedAddress("00fc::1")
            && Value(f) == Value(g) && !IsLocal(Value(f)[0])
  {
    assert "fc" + "::1" == "fc::1" && "00fc" + "::1" == "00fc::1";
    ShortSpelling("fc");
    ShortSpelling("00fc");
  }

  lemma ShortSpelling(first: string)
    requires first == "fc" || first == "00fc"
    ensures var f := Compressed([first], ["1"], []);
            && IsTextOf(first + "::1", f) && Value(f) == [0xfc, 0, 0, 0, 0, 0, 0, 1]
            && (IsBlockedAddress(first + "::1") <==> first == "fc")
  {
    ShortText(first);
    ShortKind([0xfc, 0, 0, 0, 0, 0, 0, 1]);
    OtherVerdictIff(first + "::1", Compressed([first], ["1"], []));
    assert first[0] == 'f' <==> first == "fc";
    assert first[0] == '0' <==> first == "00fc";
  }

  lemma ShortKind(v: Address)
    requires v == [0xfc, 0, 0, 0, 0, 0, 0, 1]
    ensures !IsMapped(v) && !IsUnspecified(v) && Embedded(v).None? && IsShortLocal(v[0]) && !IsLocal(v[0])
  {
    KindsAreApart(v);
  }
}
