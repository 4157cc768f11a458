/**
 * Expansion of IPv6 text into its eight hextets (src/common/security/ssrf-guard.ts:89-114), against the
 * text forms of section 2.2 of RFC 4291.
 */
module Ipv6 {
  import opened Wrappers
  import opened Ipv4
  import opened Sequences

  // ---------------------------------------------------------------- hexadecimal groups

  predicate IsHexDigit(c: char) {
    '0' <= c <= '9' || 'a' <= c <= 'f'
  }

  predicate AllHex(s: string) {
    forall i :: 0 <= i < |s| ==> IsHexDigit(s[i])
  }

  function HexValue(c: char): (v: nat)
    requires IsHexDigit(c)
    ensures v < 16
  {
    if c <= '9' then c as int - '0' as int else c as int - 'a' as int + 10
  }

  function HexChar(v: nat): (c: char)
    requires v < 16
    ensures IsHexDigit(c) && HexValue(c) == v
  {
    if v < 10 then ('0' as int + v) as char else ('a' as int + v - 10) as char
  }

  /** The sixteen digits, in order. */
  lemma HexDigits()
    ensures forall v :: 0 <= v < 16 ==>
              IsHexDigit("0123456789abcdef"[v]) && HexValue("0123456789abcdef"[v]) == v
  {
  }

  /** `parseInt(s, 16)` for a string of lower-case hexadecimal digits. */
  function ParseHex(s: string): nat
    requires AllHex(s)
  {
    if s == "" then 0 else 16 * ParseHex(s[..|s| - 1]) + HexValue(s[|s| - 1])
  }

  /** `n.toString(16)`. */
  function Hex(n: nat): (s: string)
    ensures AllHex(s) && |s| > 0
  {
    if n < 16 then [HexChar(n)] else Hex(n / 16) + [HexChar(n % 16)]
  }

  /** `/^[0-9a-f]{1,4}$/`. */
  predicate IsGroup(s: string) {
    1 <= |s| <= 4 && AllHex(s)
  }

  lemma ParseHexSnoc(s: string, c: char)
    requires AllHex(s) && IsHexDigit(c)
    ensures AllHex(s + [c]) && ParseHex(s + [c]) == 16 * ParseHex(s) + HexValue(c)
  {
    assert (s + [c])[..|s|] == s;
  }

  lemma {:induction false} ParseHexOfHex(n: nat)
    ensures ParseHex(Hex(n)) == n
  {
    if n < 16 {
      ParseHexSnoc("", HexChar(n));
      assert "" + [HexChar(n)] == [HexChar(n)];
    } else {
      ParseHexOfHex(n / 16);
      ParseHexSnoc(Hex(n / 16), HexChar(n % 16));
    }
  }

  lemma {:induction false} HexLength(n: nat, digits: nat)
    requires digits > 0 && n < Pow2(4 * digits)
    ensures |Hex(n)| <= digits
  {
    PowSum(4, 4 * (digits - 1));
    if n >= 16 {
      HexLength(n / 16, digits - 1);
    }
  }

  lemma HextetText(n: nat)
    requires n < 0x1_0000
    ensures IsGroup(Hex(n)) && ParseHex(Hex(n)) == n
  {
    ParseHexOfHex(n);
    PowSum(8, 8);
    HexLength(n, 4);
  }

  lemma {:induction false} ParseHexBound(s: string)
    requires AllHex(s)
    ensures ParseHex(s) < Pow2(4 * |s|)
  {
    if s != "" {
      ParseHexBound(s[..|s| - 1]);
      PowSum(4, 4 * (|s| - 1));
    }
  }

  lemma GroupBound(s: string)
    requires IsGroup(s)
    ensures ParseHex(s) < 0x1_0000
  {
    ParseHexBound(s);
    PowMonotone(4 * |s|, 16);
    PowSum(8, 8);
  }

  function GroupValue(s: string): (v: nat)
    requires IsGroup(s)
    ensures v < 0x1_0000
  {
    GroupBound(s);
    ParseHex(s)
  }

  predicate AllGroups(parts: seq<string>) {
    forall i :: 0 <= i < |parts| ==> IsGroup(parts[i])
  }

  function GroupValues(parts: seq<string>): (values: seq<nat>)
    requires AllGroups(parts)
    ensures |values| == |parts|
    ensures forall i :: 0 <= i < |parts| ==> values[i] == GroupValue(parts[i])
  {
    seq(|parts|, i requires 0 <= i < |parts| => GroupValue(parts[i]))
  }

  // ---------------------------------------------------------------- the parser

  /** The leftmost position from which the rest of `s`, at or behind `from`, is a dotted quad. */
  function DottedTailFrom(s: string, from: nat): (i: Option<nat>)
    requires from <= |s|
    ensures i.Some? ==> from <= i.value <= |s| && IsDotted(s[i.value..])
    decreases |s| - from
  {
    if IsDotted(s[from..]) then Some(from)
    else if from == |s| then None
    else DottedTailFrom(s, from + 1)
  }

  /** It is found where no earlier position has one. */
  lemma {:induction false} DottedTailIs(s: string, from: nat, at: nat)
    requires from <= at <= |s|
    requires forall j :: from <= j < at ==> !IsDotted(s[j..])
    ensures IsDotted(s[at..]) ==> DottedTailFrom(s, from) == Some(at)
    ensures !IsDotted(s[at..]) && at == |s| ==> DottedTailFrom(s, from) == None
    decreases at - from
  {
    if from < at {
      assert !IsDotted(s[from..]);
      DottedTailIs(s, from + 1, at);
    }
  }

  /** `s.split('::')`. */
  function SplitDouble(s: string): (halves: seq<string>)
    ensures |halves| > 0
  {
    if s == "" then [""]
    else if |s| >= 2 && s[0] == ':' && s[1] == ':' then [""] + SplitDouble(s[2..])
    else
      var rest := SplitDouble(s[1..]);
      [[s[0]] + rest[0]] + rest[1..]
  }

  /** The octets as two hexadecimal groups; `(a << 8) | b` is `a * 256 + b` for octets. */
  function FoldedQuad(octets: seq<string>): string
    requires |octets| == 4 && forall i :: 0 <= i < 4 ==> IsOctetText(octets[i])
  {
    assert IsOctetText(octets[0]) && IsOctetText(octets[1]) && IsOctetText(octets[2]) && IsOctetText(octets[3]);
    Hex(Number(octets[0]) * 256 + Number(octets[1])) + ":" + Hex(Number(octets[2]) * 256 + Number(octets[3]))
  }

  function ZeroHextets(count: nat): seq<nat> {
    seq(count, _ => 0)
  }

  function GroupsOf(half: string): seq<string> {
    if half == "" then [] else Split(half, {':'})
  }

  function Zeros(count: nat): seq<string> {
    seq(count, _ => "0")
  }

  /** Eight hextets. */
  type Address = v: seq<nat> | |v| == 8 witness [0, 0, 0, 0, 0, 0, 0, 0]

  /** What follows once the dotted tail is folded. */
  function ExpandHex(s: string): (r: Option<seq<nat>>)
    ensures r.Some? ==> |r.value| == 8 && forall i :: 0 <= i < 8 ==> r.value[i] < 0x1_0000
  {
    var halves := SplitDouble(s);
    if |halves| > 2 then None
    else
      var head := GroupsOf(halves[0]);
      var tail := if |halves| == 2 then GroupsOf(halves[1]) else [];
      var gap := 8 - |head| - |tail|;
      if (if |halves| == 1 then |head| != 8 else gap < 1) then None
      else
        var parts := head + Zeros(gap) + tail;
        if |parts| != 8 then None
        else if AllGroups(parts) then Some(GroupValues(parts))
        else None
  }

  function ExpandIPv6(lower: string): (r: Option<seq<nat>>)
    ensures r.Some? ==> |r.value| == 8 && forall i :: 0 <= i < 8 ==> r.value[i] < 0x1_0000
  {
    var dotted := DottedTailFrom(lower, 0);
    if dotted.None? then ExpandHex(lower)
    else
      var octets := Split(lower[dotted.value..], {'.'});
      if exists i :: 0 <= i < 4 && Number(octets[i]) > 255 then None
      else ExpandHex(lower[..dotted.value] + FoldedQuad(octets))
  }

  // ---------------------------------------------------------------- legal text

  /**
   * The text forms of section 2.2 of RFC 4291: all groups written out, or one `::` between two lists of
   * groups; in either, four decimal octets may stand for the last two groups (`octets` is empty if not).
   */
  datatype Form =
    | Full(groups: seq<string>, octets: seq<string>)
    | Compressed(left: seq<string>, right: seq<string>, octets: seq<string>)

  predicate ValidOctets(octets: seq<string>) {
    && (octets == [] || |octets| == 4)
    && forall i :: 0 <= i < |octets| ==> IsOctetText(octets[i]) && Number(octets[i]) < 256
  }

  /** How many hextets the octets stand for. */
  function Width(octets: seq<string>): nat {
    if octets == [] then 0 else 2
  }

  /** A legal form: `::` stands for one or more groups of zeros. */
  predicate Legal(f: Form) {
    ValidOctets(f.octets) &&
    match f
    case Full(groups, octets) => AllGroups(groups) && |groups| + Width(octets) == 8
    case Compressed(left, right, octets) =>
      AllGroups(left) && AllGroups(right) && |left| + |right| + Width(octets) <= 7
  }

  function Pieces(groups: seq<string>, octets: seq<string>): seq<string> {
    if octets == [] then groups else groups + [Join(octets, '.')]
  }

  function Render(f: Form): string {
    match f
    case Full(groups, octets) => Join(Pieces(groups, octets), ':')
    case Compressed(left, right, octets) => Join(left, ':') + "::" + Join(Pieces(right, octets), ':')
  }

  function OctetPairs(octets: seq<string>): (values: seq<nat>)
    requires ValidOctets(octets)
    ensures |values| == Width(octets)
  {
    if octets == [] then []
    else [Number(octets[0]) * 256 + Number(octets[1]), Number(octets[2]) * 256 + Number(octets[3])]
  }

  /** The eight hextets a legal form denotes. */
  function Value(f: Form): (values: seq<nat>)
    requires Legal(f)
    ensures |values| == 8
  {
    match f
    case Full(groups, octets) => GroupValues(groups) + OctetPairs(octets)
    case Compressed(left, right, octets) =>
      GroupValues(left) + ZeroHextets(8 - |left| - |right| - Width(octets)) + GroupValues(right) + OctetPairs(octets)
  }

  // ---------------------------------------------------------------- splitting what was joined

  predicate NoDouble(s: string) {
    forall i :: 0 <= i < |s| - 1 ==> !(s[i] == ':' && s[i + 1] == ':')
  }

  /** Text that neither starts nor ends with a colon and has no two colons in a row. */
  predicate Tight(s: string) {
    |s| > 0 && s[0] != ':' && s[|s| - 1] != ':' && NoDouble(s)
  }

  predicate IsPiece(s: string) {
    |s| > 0 && Without(s, ':')
  }

  lemma TightPair(a: string, b: string)
    requires IsPiece(a) && Tight(b)
    ensures Tight(a + ":" + b)
  {
  }

  lemma {:induction false} JoinIsTight(parts: seq<string>)
    requires |parts| > 0 && forall i :: 0 <= i < |parts| ==> IsPiece(parts[i])
    ensures Tight(Join(parts, ':'))
  {
    if |parts| > 1 {
      JoinIsTight(parts[1..]);
      TightPair(parts[0], Join(parts[1..], ':'));
    }
  }

  lemma {:induction false} SplitDoubleWhole(s: string)
    requires NoDouble(s)
    ensures SplitDouble(s) == [s]
  {
    if s != "" {
      SplitDoubleWhole(s[1..]);
      assert [s[0]] + s[1..] == s;
    }
  }

  lemma {:induction false} SplitDoubleAt(head: string, rest: string)
    requires head == "" || Tight(head) || (NoDouble(head) && head[|head| - 1] != ':')
    ensures SplitDouble(head + "::" + rest) == [head] + SplitDouble(rest)
  {
    var s := head + "::" + rest;
    if head == "" {
      assert s[2..] == rest;
    } else {
      assert s[1..] == head[1..] + "::" + rest;
      SplitDoubleAt(head[1..], rest);
      assert [head[0]] + head[1..] == head;
    }
  }

  lemma GroupIsPiece(s: string)
    requires IsGroup(s)
    ensures IsPiece(s) && Without(s, '.')
  {
  }

  lemma GroupsArePieces(parts: seq<string>)
    requires AllGroups(parts)
    ensures forall i :: 0 <= i < |parts| ==> IsPiece(parts[i])
  {
    forall i | 0 <= i < |parts| ensures IsPiece(parts[i]) {
      GroupIsPiece(parts[i]);
    }
  }

  /** A half of the text gives back its groups. */
  lemma GroupsOfJoin(parts: seq<string>)
    requires AllGroups(parts)
    ensures GroupsOf(Join(parts, ':')) == parts
    ensures parts != [] ==> Tight(Join(parts, ':'))
  {
    if parts != [] {
      GroupsArePieces(parts);
      JoinIsTight(parts);
      SplitJoin(parts, ':');
    }
  }

  lemma ZeroGroups(count: nat)
    ensures AllGroups(Zeros(count))
    ensures GroupValues(Zeros(count)) == ZeroHextets(count)
  {
    ParseHexSnoc("", '0');
    assert "" + "0" == "0";
  }

  lemma ExpandFull(groups: seq<string>)
    requires AllGroups(groups) && |groups| == 8
    ensures ExpandHex(Join(groups, ':')) == Some(GroupValues(groups))
  {
    GroupsOfJoin(groups);
    SplitDoubleWhole(Join(groups, ':'));
    assert groups + Zeros(0) + [] == groups;
  }

  lemma SplitCompressed(left: seq<string>, right: seq<string>)
    requires AllGroups(left) && AllGroups(right)
    ensures SplitDouble(Join(left, ':') + "::" + Join(right, ':')) == [Join(left, ':'), Join(right, ':')]
  {
    GroupsOfJoin(left);
    GroupsOfJoin(right);
    SplitDoubleAt(Join(left, ':'), Join(right, ':'));
    SplitDoubleWhole(Join(right, ':'));
  }

  /** The parser on two halves that are known already. */
  lemma ExpandHalves(s: string, left: seq<string>, right: seq<string>, head: string, tail: string)
    requires AllGroups(left) && AllGroups(right) && |left| + |right| <= 7
    requires SplitDouble(s) == [head, tail] && GroupsOf(head) == left && GroupsOf(tail) == right
    ensures ExpandHex(s) == Some(GroupValues(left) + ZeroHextets(8 - |left| - |right|) + GroupValues(right))
  {
    var gap := 8 - |left| - |right|;
    ZeroGroups(gap);
    var parts := left + Zeros(gap) + right;
    assert AllGroups(parts);
    assert GroupValues(parts) == GroupValues(left) + GroupValues(Zeros(gap)) + GroupValues(right);
  }

  lemma ExpandCompressed(left: seq<string>, right: seq<string>)
    requires AllGroups(left) && AllGroups(right) && |left| + |right| <= 7
    ensures ExpandHex(Join(left, ':') + "::" + Join(right, ':'))
         == Some(GroupValues(left) + ZeroHextets(8 - |left| - |right|) + GroupValues(right))
  {
    SplitCompressed(left, right);
    GroupsOfJoin(left);
    GroupsOfJoin(right);
    ExpandHalves(Join(left, ':') + "::" + Join(right, ':'), left, right, Join(left, ':'), Join(right, ':'));
  }

  // ---------------------------------------------------------------- the dotted tail

  lemma {:induction false} SplitPartsWithout(s: string, separator: char, c: char, i: nat)
    requires c != separator && i < |s| && s[i] == c
    ensures exists k :: 0 <= k < |Split(s, {separator})| && c in Split(s, {separator})[k]
  {
    var rest := Split(s[1..], {separator});
    if i == 0 {
      assert c in Split(s, {separator})[0];
    } else {
      SplitPartsWithout(s[1..], separator, c, i - 1);
      var k :| 0 <= k < |rest| && c in rest[k];
      if s[0] == separator {
        assert Split(s, {separator})[k + 1] == rest[k];
      } else if k > 0 {
        assert Split(s, {separator})[k] == rest[k];
      } else {
        assert c in Split(s, {separator})[0];
      }
    }
  }

  lemma DottedHasNoColon(s: string)
    requires IsDotted(s)
    ensures Without(s, ':')
  {
    forall i | 0 <= i < |s| ensures s[i] != ':' {
      if s[i] == ':' {
        SplitPartsWithout(s, '.', ':', i);
      }
    }
  }

  lemma NotDotted(s: string)
    requires Without(s, '.') || exists i :: 0 <= i < |s| && s[i] == ':'
    ensures !IsDotted(s)
  {
    if Without(s, '.') {
      SplitWhole(s, {'.'});
    } else if IsDotted(s) {
      DottedHasNoColon(s);
    }
  }

  lemma NoDottedTail(s: string)
    requires Without(s, '.')
    ensures DottedTailFrom(s, 0) == None
  {
    forall j | 0 <= j <= |s| ensures !IsDotted(s[j..]) {
      NotDotted(s[j..]);
    }
    DottedTailIs(s, 0, |s|);
  }

  lemma OctetsJoin(octets: seq<string>)
    requires ValidOctets(octets) && octets != []
    ensures Split(Join(octets, '.'), {'.'}) == octets && IsDotted(Join(octets, '.'))
  {
    SplitJoin(octets, '.');
  }

  lemma FindDottedTail(s: string, prefix: string, quad: string)
    requires s == prefix + ":" + quad && IsDotted(quad)
    ensures DottedTailFrom(s, 0) == Some(|prefix| + 1) && s[..|prefix| + 1] == prefix + ":" && s[|prefix| + 1..] == quad
  {
    var colon := |prefix|;
    assert s[..colon + 1] == prefix + ":" && s[colon + 1..] == quad;
    forall j | 0 <= j <= colon ensures !IsDotted(s[j..]) {
      assert s[j..][colon - j] == ':';
      NotDotted(s[j..]);
    }
    DottedTailIs(s, 0, colon + 1);
  }

  /** Behind a colon, a dotted tail is read as two groups. */
  lemma ExpandDotted(prefix: string, octets: seq<string>)
    requires ValidOctets(octets) && octets != []
    ensures ExpandIPv6(prefix + ":" + Join(octets, '.')) == ExpandHex(prefix + ":" + FoldedQuad(octets))
  {
    OctetsJoin(octets);
    FindDottedTail(prefix + ":" + Join(octets, '.'), prefix, Join(octets, '.'));
  }

  // ---------------------------------------------------------------- expansion inverts rendering

  /** The groups with a dotted tail written as two more groups. */
  function HexGroups(groups: seq<string>, octets: seq<string>): (all: seq<string>)
    requires AllGroups(groups) && ValidOctets(octets)
    ensures AllGroups(all) && |all| == |groups| + Width(octets)
    ensures GroupValues(all) == GroupValues(groups) + OctetPairs(octets)
  {
    if octets == [] then groups
    else
      var pairs := OctetPairs(octets);
      HextetText(pairs[0]);
      HextetText(pairs[1]);
      groups + [Hex(pairs[0]), Hex(pairs[1])]
  }

  /** What stands before the last piece. */
  function Lead(groups: seq<string>): string {
    if groups == [] then "" else Join(groups, ':') + ":"
  }

  lemma JoinOneMore(groups: seq<string>, last: string)
    ensures Join(groups + [last], ':') == Lead(groups) + last
  {
    if groups == [] {
      assert groups + [last] == [last];
    } else {
      JoinSnoc(groups, last, ':');
    }
  }

  lemma JoinTwoMore(groups: seq<string>, hi: string, lo: string)
    ensures Join(groups + [hi, lo], ':') == Lead(groups) + (hi + ":" + lo)
  {
    JoinOneMore(groups, hi);
    JoinSnoc(groups + [hi], lo, ':');
    assert groups + [hi, lo] == (groups + [hi]) + [lo];
    assert Lead(groups) + hi + ":" + lo == Lead(groups) + (hi + ":" + lo);
  }

  lemma {:induction false} JoinWithoutDot(parts: seq<string>)
    requires AllGroups(parts)
    ensures Without(Join(parts, ':'), '.')
  {
    if |parts| > 0 {
      GroupIsPiece(parts[0]);
      if |parts| > 1 {
        JoinWithoutDot(parts[1..]);
      }
    }
  }

  lemma ExpandBehind(lead: string, octets: seq<string>, quad: string, folded: string)
    requires ValidOctets(octets) && octets != []
    requires quad == Join(octets, '.') && folded == FoldedQuad(octets)
    requires |lead| > 0 && lead[|lead| - 1] == ':'
    ensures ExpandIPv6(lead + quad) == ExpandHex(lead + folded)
  {
    var prefix := lead[..|lead| - 1];
    assert lead == prefix + ":";
    ExpandDotted(prefix, octets);
  }

  lemma TailTexts(front: string, groups: seq<string>, quad: string, hi: string, lo: string)
    ensures front + Join(groups + [quad], ':') == front + Lead(groups) + quad
    ensures front + Join(groups + [hi, lo], ':') == front + Lead(groups) + (hi + ":" + lo)
  {
    JoinOneMore(groups, quad);
    JoinTwoMore(groups, hi, lo);
  }

  lemma TailParts(groups: seq<string>, octets: seq<string>) returns (quad: string, hi: string, lo: string)
    requires AllGroups(groups) && ValidOctets(octets) && octets != []
    ensures quad == Join(octets, '.') && Pieces(groups, octets) == groups + [quad]
    ensures HexGroups(groups, octets) == groups + [hi, lo] && FoldedQuad(octets) == hi + ":" + lo
  {
    var pairs := OctetPairs(octets);
    quad, hi, lo := Join(octets, '.'), Hex(pairs[0]), Hex(pairs[1]);
  }

  lemma LeadEnds(front: string, groups: seq<string>)
    requires groups == [] ==> |front| > 0 && front[|front| - 1] == ':'
    ensures var lead := front + Lead(groups); |lead| > 0 && lead[|lead| - 1] == ':'
  {
  }

  lemma ExpandWithTail(front: string, groups: seq<string>, octets: seq<string>)
    requires AllGroups(groups) && ValidOctets(octets) && octets != []
    requires groups == [] ==> |front| > 0 && front[|front| - 1] == ':'
    ensures ExpandIPv6(front + Join(Pieces(groups, octets), ':'))
        == ExpandHex(front + Join(HexGroups(groups, octets), ':'))
  {
    var quad, hi, lo := TailParts(groups, octets);
    TailTexts(front, groups, quad, hi, lo);
    LeadEnds(front, groups);
    ExpandBehind(front + Lead(groups), octets, quad, hi + ":" + lo);
  }

  lemma ExpandWithoutTail(front: string, groups: seq<string>)
    requires AllGroups(groups) && Without(front, '.')
    ensures ExpandIPv6(front + Join(groups, ':')) == ExpandHex(front + Join(groups, ':'))
  {
    JoinWithoutDot(groups);
    NoDottedTail(front + Join(groups, ':'));
  }

  lemma FoldTail(front: string, groups: seq<string>, octets: seq<string>)
    requires AllGroups(groups) && ValidOctets(octets) && Without(front, '.')
    requires groups == [] ==> octets == [] || (|front| > 0 && front[|front| - 1] == ':')
    ensures ExpandIPv6(front + Join(Pieces(groups, octets), ':'))
        == ExpandHex(front + Join(HexGroups(groups, octets), ':'))
  {
    if octets == [] {
      ExpandWithoutTail(front, groups);
    } else {
      ExpandWithTail(front, groups, octets);
    }
  }

  lemma Regroup(a: seq<nat>, b: seq<nat>, c: seq<nat>)
    ensures a + (b + c) == a + b + c
  {
  }

  lemma ExpandFullForm(groups: seq<string>, octets: seq<string>)
    requires Legal(Full(groups, octets))
    ensures ExpandIPv6(Render(Full(groups, octets))) == Some(Value(Full(groups, octets)))
  {
    FoldTail("", groups, octets);
    ExpandFull(HexGroups(groups, octets));
    assert "" + Join(Pieces(groups, octets), ':') == Join(Pieces(groups, octets), ':');
    assert "" + Join(HexGroups(groups, octets), ':') == Join(HexGroups(groups, octets), ':');
  }

  lemma FoldCompressed(left: seq<string>, right: seq<string>, octets: seq<string>)
    requires Legal(Compressed(left, right, octets))
    ensures ExpandIPv6(Render(Compressed(left, right, octets)))
         == ExpandHex(Join(left, ':') + "::" + Join(HexGroups(right, octets), ':'))
  {
    JoinWithoutDot(left);
    FoldTail(Join(left, ':') + "::", right, octets);
  }

  lemma ValueOfCompressed(left: seq<string>, right: seq<string>, octets: seq<string>, all: seq<string>)
    requires Legal(Compressed(left, right, octets)) && all == HexGroups(right, octets)
    ensures Value(Compressed(left, right, octets))
         == GroupValues(left) + ZeroHextets(8 - |left| - |all|) + GroupValues(all)
  {
    Regroup(GroupValues(left) + ZeroHextets(8 - |left| - |all|), GroupValues(right), OctetPairs(octets));
  }

  lemma ExpandCompressedForm(left: seq<string>, right: seq<string>, octets: seq<string>)
    requires Legal(Compressed(left, right, octets))
    ensures ExpandIPv6(Render(Compressed(left, right, octets))) == Some(Value(Compressed(left, right, octets)))
  {
    FoldCompressed(left, right, octets);
    var all := HexGroups(right, octets);
    ValueOfCompressed(left, right, octets, all);
    ExpandCompressed(left, all);
  }

  /** Expansion inverts rendering, for every legal text of every address. */
  lemma ExpandInvertsRender(f: Form)
    requires Legal(f)
    ensures ExpandIPv6(Render(f)) == Some(Value(f))
  {
    match f {
      case Full(groups, octets) => ExpandFullForm(groups, octets);
      case Compressed(left, right, octets) => ExpandCompressedForm(left, right, octets);
    }
  }

  /** A legal text denotes one address, however it is read. */
  lemma TextDeterminesValue(f: Form, g: Form)
    requires Legal(f) && Legal(g) && Render(f) == Render(g)
    ensures Value(f) == Value(g)
  {
    ExpandInvertsRender(f);
    ExpandInvertsRender(g);
  }

  /** Every address has a legal text. */
  lemma EveryAddressHasText(values: seq<nat>) returns (f: Form)
    requires |values| == 8 && forall i :: 0 <= i < 8 ==> values[i] < 0x1_0000
    ensures Legal(f) && Value(f) == values
  {
    var groups := seq(8, i requires 0 <= i < 8 => Hex(values[i]));
    forall i | 0 <= i < 8 ensures IsGroup(groups[i]) && GroupValue(groups[i]) == values[i] {
      HextetText(values[i]);
    }
    f := Full(groups, []);
    assert Value(f) == values;
  }
}
