/**
 * The client address behind trusted proxies (src/common/utils/ip.ts:12-58).
 *
 * Proxies append what they observed to the forwarding header, so its right end is theirs and its left end is
 * the client's. The lemmas say that what stands left of the hop that is returned has no influence.
 */
module ClientIp {
  import opened Wrappers
  import opened Ipv4
  import opened Characters
  import opened Sequences

  /** `x-forwarded-for`, which may have been sent several times. */
  datatype Header = Absent | One(text: string) | Many(texts: seq<string>)

  /** The proxies the operator trusts; `toInteger` is JavaScript's reading of the text behind a slash. */
  datatype Trust = Trust(proxies: seq<string>, toInteger: string -> Option<int>)

  predicate IsTrusted(trust: Trust, ip: string) {
    exists i :: 0 <= i < |trust.proxies| && IpMatches(ip, trust.proxies[i], trust.toInteger)
  }

  /** `remoteAddress || ip || ''`, normalized. */
  function SocketIp(remoteAddress: Option<string>, ip: Option<string>): string {
    NormalizeIp(
      if remoteAddress.Some? && remoteAddress.value != "" then remoteAddress.value
      else if ip.Some? then ip.value
      else "")
  }

  function HeaderText(header: Header): string {
    match header
    case Absent => ""
    case One(text) => text
    case Many(texts) => Join(texts, ',')
  }

  /** The hops of a list of header parts: trimmed, normalized, the empty ones dropped. */
  function HopsOf(parts: seq<string>): seq<string> {
    if parts == [] then []
    else
      var hop := NormalizeIp(Trim(parts[0]));
      (if hop == "" then [] else [hop]) + HopsOf(parts[1..])
  }

  function Hops(text: string): seq<string> {
    HopsOf(Split(text, {','}))
  }

  lemma NoHops()
    ensures Hops("") == []
  {
    assert Split("", {','}) == [""] && NormalizeIp(Trim("")) == "";
  }

  /** The last hop that is not a trusted proxy. */
  function LastUntrusted(trust: Trust, hops: seq<string>): Option<string> {
    if hops == [] then None
    else if !IsTrusted(trust, hops[|hops| - 1]) then Some(hops[|hops| - 1])
    else LastUntrusted(trust, hops[..|hops| - 1])
  }

  /** The address a request comes from. */
  function ClientOf(socketIp: string, text: string, trust: Trust): string {
    var hop := LastUntrusted(trust, Hops(text));
    if IsTrusted(trust, socketIp) && hop.Some? then hop.value else socketIp
  }

  /** `resolveClientIp`: the header counts only behind a trusted peer, and is walked from the right. */
  method ResolveClientIp(
      remoteAddress: Option<string>, ip: Option<string>, header: Header, trust: Trust) returns (client: string)
    ensures client == ClientOf(SocketIp(remoteAddress, ip), HeaderText(header), trust)
  {
    var socketIp := SocketIp(remoteAddress, ip);
    if |trust.proxies| == 0 {
      return socketIp;
    }
    if !IsTrusted(trust, socketIp) {
      return socketIp;
    }
    if header == Absent || header == One("") {
      NoHops();
      return socketIp;
    }
    var hop := WalkHops(Hops(HeaderText(header)), trust);
    return if hop.Some? then hop.value else socketIp;
  }

  /** The walk from the right end of the list. */
  method WalkHops(hops: seq<string>, trust: Trust) returns (hop: Option<string>)
    ensures hop == LastUntrusted(trust, hops)
  {
    var i := |hops|;
    assert hops[..i] == hops;
    while i > 0
      invariant 0 <= i <= |hops|
      invariant LastUntrusted(trust, hops) == LastUntrusted(trust, hops[..i])
    {
      i := i - 1;
      assert hops[..i + 1][..i] == hops[..i];
      if !IsTrusted(trust, hops[i]) {
        return Some(hops[i]);
      }
    }
    return None;
  }

  // ---------------------------------------------------------------- what the client can write

  lemma {:induction false} HopsOfConcat(a: seq<string>, b: seq<string>)
    ensures HopsOf(a + b) == HopsOf(a) + HopsOf(b)
  {
    if a == [] {
      assert a + b == b;
    } else {
      assert (a + b)[1..] == a[1..] + b;
      HopsOfConcat(a[1..], b);
    }
  }

  lemma {:induction false} LastUntrustedConcat(trust: Trust, a: seq<string>, b: seq<string>)
    ensures LastUntrusted(trust, a + b)
         == if LastUntrusted(trust, b).Some? then LastUntrusted(trust, b) else LastUntrusted(trust, a)
  {
    if b == [] {
      assert a + b == a;
    } else {
      assert (a + b)[..|a + b| - 1] == a + b[..|b| - 1];
      LastUntrustedConcat(trust, a, b[..|b| - 1]);
    }
  }

  lemma {:induction false} LastUntrustedMeaning(trust: Trust, hops: seq<string>)
    ensures var hop := LastUntrusted(trust, hops);
            && (hop.Some? ==> hop.value in hops && !IsTrusted(trust, hop.value))
            && (hop.None? <==> forall h :: h in hops ==> IsTrusted(trust, h))
  {
    if hops != [] {
      LastUntrustedMeaning(trust, hops[..|hops| - 1]);
      assert hops == hops[..|hops| - 1] + [hops[|hops| - 1]];
    }
  }

  /**
   * Behind a trusted peer the part `observed` of the header decides alone, whatever was sent in front of it, as
   * soon as one hop in it is not a trusted proxy; while all of them are, the part in front is walked in its turn.
   */
  lemma ClientCannotInfluence(socketIp: string, sent: string, observed: string, trust: Trust)
    ensures
      var whole := ClientOf(socketIp, sent + "," + observed, trust);
      if !IsTrusted(trust, socketIp) then whole == socketIp
      else if exists h :: h in Hops(observed) && !IsTrusted(trust, h) then whole == ClientOf(socketIp, observed, trust)
      else whole == ClientOf(socketIp, sent, trust)
  {
    SplitConcat(sent, observed, ',');
    HopsOfConcat(Split(sent, {','}), Split(observed, {','}));
    LastUntrustedConcat(trust, Hops(sent), Hops(observed));
    LastUntrustedMeaning(trust, Hops(observed));
  }

  /** The result is the peer itself, or a hop that is no trusted proxy; with every hop trusted it is the peer. */
  lemma ClientIsPeerOrUntrustedHop(socketIp: string, text: string, trust: Trust)
    ensures
      var client := ClientOf(socketIp, text, trust);
      && (client == socketIp || (IsTrusted(trust, socketIp) && client in Hops(text) && !IsTrusted(trust, client)))
      && ((forall h :: h in Hops(text) ==> IsTrusted(trust, h)) ==> client == socketIp)
      && (IsTrusted(trust, client) ==> client == socketIp && forall h :: h in Hops(text) ==> IsTrusted(trust, h))
  {
    LastUntrustedMeaning(trust, Hops(text));
  }

  // ---------------------------------------------------------------- which hops a header holds

  /** A part of the header is a hop between spaces. */
  predicate IsPart(part: string, left: string, hop: string, right: string) {
    && part == left + hop + right && AllSpaces(left) && AllSpaces(right)
    && hop != "" && !IsSpace(hop[0]) && !IsSpace(hop[|hop| - 1])
  }

  lemma {:induction false} PartsAreHops(
      parts: seq<string>, lefts: seq<string>, hops: seq<string>, rights: seq<string>)
    requires |parts| == |lefts| == |hops| == |rights|
    requires forall i :: 0 <= i < |parts| ==> IsPart(parts[i], lefts[i], hops[i], rights[i])
    requires forall i :: 0 <= i < |hops| ==> NormalizeIp(hops[i]) == hops[i]
    ensures HopsOf(parts) == hops
  {
    if parts != [] {
      assert IsPart(parts[0], lefts[0], hops[0], rights[0]) && NormalizeIp(hops[0]) == hops[0];
      TrimStrips(lefts[0], hops[0], rights[0]);
      PartsAreHops(parts[1..], lefts[1..], hops[1..], rights[1..]);
    }
  }

  /** The hops of a header are what stands between its commas, without the spaces around it. */
  lemma HeaderHolds(parts: seq<string>, lefts: seq<string>, hops: seq<string>, rights: seq<string>)
    requires |parts| == |lefts| == |hops| == |rights| > 0
    requires forall i :: 0 <= i < |parts| ==> IsPart(parts[i], lefts[i], hops[i], rights[i]) && Without(parts[i], ',')
    requires forall i :: 0 <= i < |hops| ==> NormalizeIp(hops[i]) == hops[i]
    ensures Hops(Join(parts, ',')) == hops
    ensures HeaderText(Many(parts)) == HeaderText(One(Join(parts, ','))) == Join(parts, ',')
  {
    SplitJoin(parts, ',');
    PartsAreHops(parts, lefts, hops, rights);
  }

  /** The peer is the remote address if there is one, else what the framework found; a mapped one is read as IPv4. */
  lemma PeerAddress(prefix: string, n: nat, ip: Option<string>, m: nat)
    requires n < TWO_32 && m < TWO_32 && (prefix == "" || prefix == "::ffff:" || prefix == "::FFFF:")
    ensures SocketIp(Some(prefix + Dotted(n)), ip) == Dotted(n)
    ensures SocketIp(None, Some(prefix + Dotted(m))) == Dotted(m) == SocketIp(Some(""), Some(prefix + Dotted(m)))
    ensures SocketIp(None, None) == ""
  {
    DottedText(n);
    DottedText(m);
    assert "" + Dotted(n) == Dotted(n) && "" + Dotted(m) == Dotted(m);
    if prefix != "" {
      MappedSpellingReads(prefix, n);
      MappedSpellingReads(prefix, m);
    }
  }

  // ---------------------------------------------------------------- addresses and blocks

  /** A block of addresses: the first `bits` bits are those of `base`. */
  datatype Block = Block(base: nat, bits: nat)

  ghost predicate IsBlock(b: Block) {
    b.base < TWO_32 && b.bits <= 32
  }

  ghost predicate InBlock(n: nat, b: Block)
    requires IsBlock(b)
  {
    SameBlock(n, b.base, b.bits)
  }

  /** The trusted proxies are these blocks, and prefix lengths are read as numbers. */
  ghost predicate TrustsBlocks(trust: Trust, blocks: seq<Block>) {
    && RightOnDecimals(trust.toInteger) && |trust.proxies| == |blocks|
    && forall i :: 0 <= i < |blocks| ==>
         IsBlock(blocks[i]) && trust.proxies[i] == Dotted(blocks[i].base) + "/" + Decimal(blocks[i].bits)
  }

  ghost predicate InSome(n: nat, blocks: seq<Block>) {
    exists i :: 0 <= i < |blocks| && IsBlock(blocks[i]) && InBlock(n, blocks[i])
  }

  lemma TrustedIff(trust: Trust, blocks: seq<Block>, n: nat)
    requires TrustsBlocks(trust, blocks) && n < TWO_32
    ensures IsTrusted(trust, Dotted(n)) <==> InSome(n, blocks)
  {
    forall i | 0 <= i < |blocks|
      ensures IpMatches(Dotted(n), trust.proxies[i], trust.toInteger) <==> InBlock(n, blocks[i])
    {
      MatchesBlock(n, blocks[i].base, blocks[i].bits, trust.toInteger);
    }
  }

  lemma {:induction false} LastUntrustedAt(trust: Trust, hops: seq<string>, k: nat)
    requires k < |hops| && !IsTrusted(trust, hops[k])
    requires forall j :: k < j < |hops| ==> IsTrusted(trust, hops[j])
    ensures LastUntrusted(trust, hops) == Some(hops[k])
  {
    if k < |hops| - 1 {
      LastUntrustedAt(trust, hops[..|hops| - 1], k);
    }
  }

  /**
   * Behind a peer in a trusted block the client is the last address of the header outside every trusted block;
   * behind any other peer it is the peer.
   */
  lemma ClientIsLastOutside(peer: nat, text: string, ns: seq<nat>, k: nat, trust: Trust, blocks: seq<Block>)
    requires TrustsBlocks(trust, blocks) && peer < TWO_32 && k < |ns| && forall i :: 0 <= i < |ns| ==> ns[i] < TWO_32
    requires |Hops(text)| == |ns| && forall i :: 0 <= i < |ns| ==> Hops(text)[i] == Dotted(ns[i])
    requires !InSome(ns[k], blocks) && forall j :: k < j < |ns| ==> InSome(ns[j], blocks)
    ensures ClientOf(Dotted(peer), text, trust) == Dotted(if InSome(peer, blocks) then ns[k] else peer)
  {
    TrustedIff(trust, blocks, peer);
    forall i | 0 <= i < |ns|
      ensures IsTrusted(trust, Hops(text)[i]) <==> InSome(ns[i], blocks)
    {
      TrustedIff(trust, blocks, ns[i]);
    }
    LastUntrustedAt(trust, Hops(text), k);
  }
}
