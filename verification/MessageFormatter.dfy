/**
 * The WhatsApp message parser (dashboard/src/utils/messageFormatter.ts).
 *
 * `ParseMessageBody` peels code segments off the input and hands the text between them to
 * `ParseFormatting`, a recursive parser for the markers `*`, `_` and `~`. Both keep the loops of the
 * source and are proved against the specifications `Parse` and `Formatted`; the printer `Print` is
 * the inverse the theorems at the end speak about.
 */
module MessageFormatter {
  import opened Wrappers
  import opened Characters

  datatype Format = Bold | Italic | Strike

  datatype Node =
    | Text(value: string)
    | Styled(format: Format, children: seq<Node>)
    | Code(value: string)
    | CodeBlock(value: string)

  // ---------------------------------------------------------------- characters

  function FormatOf(c: char): Option<Format> {
    match c
    case '*' => Some(Bold)
    case '_' => Some(Italic)
    case '~' => Some(Strike)
    case _ => None
  }

  function Marker(f: Format): char {
    match f
    case Bold => '*'
    case Italic => '_'
    case Strike => '~'
  }

  predicate IsBoundary(c: char) {
    || IsSpace(c)
    || c == '.' || c == ',' || c == ';' || c == ':' || c == '!' || c == '?'
    || c == '(' || c == ')' || c == '[' || c == ']' || c == '{' || c == '}'
    || c == '\'' || c == '"' || c == '<' || c == '>'
  }

  // ---------------------------------------------------------------- the format parser

  /** Position `i` opens a format that position `j` closes: both boundary rules hold. */
  predicate ValidPair(s: string, i: int, j: int) {
    && 0 <= i < j < |s|
    && FormatOf(s[i]).Some?
    && (i == 0 || IsBoundary(s[i - 1]))
    && !IsSpace(s[i + 1])
    && s[j] == s[i]
    && !IsSpace(s[j - 1])
    && (j == |s| - 1 || IsBoundary(s[j + 1]))
  }

  /** The leftmost opener that has a closer at all, with the nearest of its closers. */
  ghost predicate FirstPair(s: string, i: int, j: int) {
    && ValidPair(s, i, j)
    && forall a, b :: ValidPair(s, a, b) ==> i < a || (i == a && j <= b)
  }

  ghost predicate Splits(s: string) {
    exists i, j :: FirstPair(s, i, j)
  }

  ghost function Split(s: string): (p: (nat, nat))
    requires Splits(s)
    ensures FirstPair(s, p.0, p.1)
  {
    var i, j :| FirstPair(s, i, j);
    (i, j)
  }

  function TextBefore(s: string): seq<Node> {
    if s == "" then [] else [Text(s)]
  }

  /** What a code-free piece of text parses to. */
  ghost function Formatted(s: string): seq<Node>
    decreases |s|, 1
  {
    if !Splits(s) then
      TextBefore(s)
    else
      var (i, j) := Split(s);
      FormattedPair(s, i, j)
  }

  /** Text before the opener, the formatted inside, and whatever follows the closer. */
  ghost function FormattedPair(s: string, i: nat, j: nat): seq<Node>
    requires FirstPair(s, i, j)
    decreases |s|, 0
  {
    TextBefore(s[..i]) + [Styled(FormatOf(s[i]).value, Formatted(s[i + 1..j]))] + Formatted(s[j + 1..])
  }

  lemma FormattedAt(s: string, i: nat, j: nat)
    requires FirstPair(s, i, j)
    ensures Formatted(s) == FormattedPair(s, i, j)
  {
    assert Splits(s) && Split(s) == (i, j);
  }

  method ParseFormatting(input: string) returns (nodes: seq<Node>)
    ensures nodes == Formatted(input)
    decreases |input|
  {
    if |input| == 0 {
      return [];
    }
    for i := 0 to |input|
      invariant forall a, b :: ValidPair(input, a, b) ==> i <= a
    {
      var ch := input[i];
      var fmt := FormatOf(ch);
      if fmt.None? { continue; }
      if i != 0 && !IsBoundary(input[i - 1]) { continue; }
      if i + 1 == |input| || IsSpace(input[i + 1]) { continue; }
      for j := i + 1 to |input|
        invariant forall b :: ValidPair(input, i, b) ==> j <= b
      {
        if input[j] != ch { continue; }
        if IsSpace(input[j - 1]) { continue; }
        if j != |input| - 1 && !IsBoundary(input[j + 1]) { continue; }
        FormattedAt(input, i, j);
        var inner := ParseFormatting(input[i + 1..j]);
        var rest := ParseFormatting(input[j + 1..]);
        return TextBefore(input[..i]) + [Styled(fmt.value, inner)] + rest;
      }
    }
    nodes := [Text(input)];
  }

  // ---------------------------------------------------------------- code segments

  /** Three backticks at position `k`. */
  predicate TripleAt(s: string, k: int) {
    0 <= k <= |s| - 3 && s[k] == s[k + 1] == s[k + 2] == '`'
  }

  /** ``s.indexOf('```', from)``, with `None` for -1. */
  function FindTriple(s: string, from: nat): (r: Option<nat>)
    ensures r.Some? ==> from <= r.value && TripleAt(s, r.value)
    decreases |s| - from
  {
    if from >= |s| then None
    else if TripleAt(s, from) then Some(from)
    else FindTriple(s, from + 1)
  }

  /** ``s.indexOf('`', from)``, with `None` for -1. */
  function FindBacktick(s: string, from: nat): (r: Option<nat>)
    ensures r.Some? ==> from <= r.value < |s| && s[r.value] == '`'
    decreases |s| - from
  {
    if from >= |s| then None
    else if s[from] == '`' then Some(from)
    else FindBacktick(s, from + 1)
  }

  lemma {:induction false} FindTripleIsFirst(s: string, from: nat, k: nat)
    requires from <= k < (if FindTriple(s, from).Some? then FindTriple(s, from).value else |s|)
    ensures !TripleAt(s, k)
    decreases |s| - from
  {
    if from < k {
      FindTripleIsFirst(s, from + 1, k);
    }
  }

  lemma {:induction false} FindBacktickIsFirst(s: string, from: nat, k: nat)
    requires from <= k < (if FindBacktick(s, from).Some? then FindBacktick(s, from).value else |s|)
    ensures s[k] != '`'
    decreases |s| - from
  {
    if from < k {
      FindBacktickIsFirst(s, from + 1, k);
    }
  }

  /** Position `k` lies in some run of three backticks. */
  ghost predicate InTriple(s: string, k: int) {
    TripleAt(s, k) || TripleAt(s, k - 1) || TripleAt(s, k - 2)
  }

  /** The first backtick at or after `from` that the scan does not skip as part of a triple. */
  ghost function SingleBacktick(s: string, from: nat): (r: Option<nat>)
    ensures r.Some? ==> from <= r.value < |s| && s[r.value] == '`'
    decreases |s| - from
  {
    match FindBacktick(s, from)
    case None => None
    case Some(idx) =>
      if TripleAt(s, idx) then SingleBacktick(s, idx + 3)
      else if TripleAt(s, idx - 1) then SingleBacktick(s, idx + 2)
      else Some(idx)
  }

  /** The backtick that is found neither starts a triple nor stands in the middle of one. */
  lemma {:induction false} FoundIsSingle(s: string, from: nat)
    ensures var r := SingleBacktick(s, from);
            r.Some? ==> !TripleAt(s, r.value) && !TripleAt(s, r.value as int - 1)
    decreases |s| - from
  {
    var b := FindBacktick(s, from);
    if b.Some? && TripleAt(s, b.value) {
      FoundIsSingle(s, b.value + 3);
    } else if b.Some? && TripleAt(s, b.value as int - 1) {
      FoundIsSingle(s, b.value + 2);
    }
  }

  /** Where a scan that starts at `from` ends. */
  ghost function ScanEnd(s: string, from: nat): nat {
    var r := SingleBacktick(s, from);
    if r.Some? then r.value else |s|
  }

  /** Every backtick that is passed over belongs to a triple. */
  lemma {:induction false} PassedIsInTriple(s: string, from: nat, k: nat)
    requires from <= k < ScanEnd(s, from) && k < |s| && s[k] == '`'
    ensures InTriple(s, k)
    decreases |s| - from
  {
    var b := FindBacktick(s, from);
    if b.None? || k < b.value {
      FindBacktickIsFirst(s, from, k);
    } else if TripleAt(s, b.value) {
      if k >= b.value + 3 {
        PassedIsInTriple(s, b.value + 3, k);
      }
    } else if k >= b.value + 2 {
      PassedIsInTriple(s, b.value + 2, k);
    }
  }

  /**
   * The scan skips exactly what it should: the backtick it stops at neither starts a triple nor stands
   * in the middle of one, and every backtick it passed over belongs to a triple.
   */
  lemma SingleBacktickSkipsTriples(s: string, from: nat, k: nat)
    ensures var r := SingleBacktick(s, from);
            && (r.Some? ==> !TripleAt(s, r.value) && !TripleAt(s, r.value as int - 1))
            && (from <= k < (if r.Some? then r.value else |s|) && s[k] == '`' ==> InTriple(s, k))
  {
    FoundIsSingle(s, from);
    if from <= k < ScanEnd(s, from) && s[k] == '`' {
      PassedIsInTriple(s, from, k);
    }
  }

  method FindSingleBacktick(s: string, from: nat) returns (r: Option<nat>)
    ensures r == SingleBacktick(s, from)
  {
    var i := from;
    while i < |s|
      invariant SingleBacktick(s, from) == SingleBacktick(s, i)
      decreases |s| - i
    {
      var idx := FindBacktick(s, i);
      if idx.None? { return None; }
      if TripleAt(s, idx.value) {
        i := idx.value + 3;
        continue;
      }
      if TripleAt(s, idx.value as int - 1) {
        i := idx.value + 2;
        continue;
      }
      return idx;
    }
    return None;
  }

  datatype Segment = Segment(open: nat, close: nat, width: nat, node: Node) {
    function End(): nat { close + width }
  }

  /** The block that opens at `open`, if it is ever closed. */
  ghost function BlockAt(s: string, open: nat): (r: Option<Segment>)
    requires TripleAt(s, open)
    ensures r.Some? ==> InBounds(s, open, r.value)
  {
    match FindTriple(s, open + 3)
    case None => None
    case Some(close) => Some(Segment(open, close, 3, CodeBlock(s[open + 3..close])))
  }

  /** The inline code that opens at `open`, if it is ever closed. */
  ghost function InlineAt(s: string, open: nat): (r: Option<Segment>)
    requires open < |s|
    ensures r.Some? ==> InBounds(s, open, r.value)
  {
    match FindBacktick(s, open + 1)
    case None => None
    case Some(close) => Some(Segment(open, close, 1, Code(s[open + 1..close])))
  }

  predicate InBounds(s: string, cursor: nat, g: Segment) {
    cursor <= g.open && 0 < g.width && g.open + g.width <= g.close && g.End() <= |s|
  }

  /** The next code segment at or after `cursor`; `None` when there is none or its closer is missing. */
  ghost function NextSegment(s: string, cursor: nat): (r: Option<Segment>)
    ensures r.Some? ==> InBounds(s, cursor, r.value)
  {
    var triple := FindTriple(s, cursor);
    var single := SingleBacktick(s, cursor);
    if triple.Some? && (single.None? || triple.value <= single.value) then BlockAt(s, triple.value)
    else if single.Some? then InlineAt(s, single.value)
    else None
  }

  /**
   * No marker is passed over: a backtick between the cursor and the next code segment can only be the
   * tail of a triple that started before the cursor.
   */
  lemma NextSegmentIsEarliest(s: string, cursor: nat, k: nat)
    requires NextSegment(s, cursor).Some?
    requires cursor <= k < NextSegment(s, cursor).value.open && s[k] == '`'
    ensures exists t: int :: t < cursor && k - 2 <= t <= k && TripleAt(s, t)
  {
    SingleBacktickSkipsTriples(s, cursor, k);
    assert InTriple(s, k);
    var t := if TripleAt(s, k) then k else if TripleAt(s, k - 1) then k - 1 else k - 2;
    if cursor <= t {
      FindTripleIsFirst(s, cursor, t);
    }
  }

  /** All code segments at or after `cursor`, in order. */
  ghost function Codes(s: string, cursor: nat): (codes: seq<Segment>)
    requires cursor <= |s|
    ensures Ordered(s, cursor, codes)
    decreases |s| - cursor
  {
    match NextSegment(s, cursor)
    case None => []
    case Some(g) => [g] + Codes(s, g.End())
  }

  ghost predicate Ordered(s: string, cursor: nat, codes: seq<Segment>)
    decreases |codes|
  {
    cursor <= |s| && (codes != [] ==> InBounds(s, cursor, codes[0]) && Ordered(s, codes[0].End(), codes[1..]))
  }

  /** The parse of the input from `cursor` on, given its code segments: the text between them is formatted. */
  ghost function Assemble(s: string, cursor: nat, codes: seq<Segment>): seq<Node>
    requires Ordered(s, cursor, codes)
    decreases |codes|
  {
    if codes == [] then
      Formatted(s[cursor..|s|])
    else
      Formatted(s[cursor..codes[0].open]) + [codes[0].node] + Assemble(s, codes[0].End(), codes[1..])
  }

  /** What a message parses to. */
  ghost function Parse(s: string): seq<Node> {
    Assemble(s, 0, Codes(s, 0))
  }

  lemma FlushRest(s: string, done: seq<Node>, cursor: nat, flushed: seq<Node>)
    requires cursor <= |s| && flushed == done + Formatted(s[cursor..|s|])
    ensures done + Assemble(s, cursor, []) == flushed + Assemble(s, |s|, [])
  {
    assert s[|s|..|s|] == "";
  }

  lemma FlushSegment(s: string, done: seq<Node>, cursor: nat, codes: seq<Segment>, flushed: seq<Node>)
    requires Ordered(s, cursor, codes) && codes != []
    requires flushed == done + Formatted(s[cursor..codes[0].open])
    ensures done + Assemble(s, cursor, codes) ==
            flushed + [codes[0].node] + Assemble(s, codes[0].End(), codes[1..])
  {
  }

  lemma CodesAtEnd(s: string)
    ensures Codes(s, |s|) == [] && Assemble(s, |s|, []) == []
  {
  }

  /** Appends the parse of the text between the cursor and `end`. */
  method FlushText(input: string, nodes: seq<Node>, cursor: nat, end: nat) returns (flushed: seq<Node>)
    requires cursor <= end <= |input|
    ensures flushed == nodes + Formatted(input[cursor..end])
  {
    if end <= cursor {
      return nodes;
    }
    var parsed := ParseFormatting(input[cursor..end]);
    flushed := nodes + parsed;
  }

  /** The nearer of the next block and the next inline code, provided its closer exists. */
  method FindCode(input: string, cursor: nat) returns (next: Option<Segment>)
    ensures next == NextSegment(input, cursor)
  {
    var tripleStart := FindTriple(input, cursor);
    var singleStart := FindSingleBacktick(input, cursor);
    next := None;
    if tripleStart.Some? && (singleStart.None? || tripleStart.value <= singleStart.value) {
      var nextIdx := tripleStart.value;
      var closeIdx := FindTriple(input, nextIdx + 3);
      if closeIdx.Some? {
        next := Some(Segment(nextIdx, closeIdx.value, 3, CodeBlock(input[nextIdx + 3..closeIdx.value])));
      }
    } else if singleStart.Some? {
      var nextIdx := singleStart.value;
      var closeIdx := FindBacktick(input, nextIdx + 1);
      if closeIdx.Some? {
        next := Some(Segment(nextIdx, closeIdx.value, 1, Code(input[nextIdx + 1..closeIdx.value])));
      }
    }
  }

  method ParseMessageBody(input: string) returns (nodes: seq<Node>)
    ensures nodes == Parse(input)
  {
    nodes := [];
    var cursor := 0;
    ghost var codes := Codes(input, 0);
    while cursor < |input|
      invariant cursor <= |input|
      invariant codes == Codes(input, cursor)
      invariant Parse(input) == nodes + Assemble(input, cursor, codes)
      decreases |input| - cursor
    {
      var next := FindCode(input, cursor);
      if next.None? {
        var flushed := FlushText(input, nodes, cursor, |input|);
        FlushRest(input, nodes, cursor, flushed);
        nodes, cursor := flushed, |input|;
      } else {
        var g := next.value;
        var flushed := FlushText(input, nodes, cursor, g.open);
        FlushSegment(input, nodes, cursor, codes, flushed);
        nodes, cursor, codes := flushed + [g.node], g.End(), codes[1..];
      }
    }
    CodesAtEnd(input);
  }

  // ---------------------------------------------------------------- printing

  /** Text verbatim, markers around children, one or three backticks around code. */
  function Print(nodes: seq<Node>): string {
    if nodes == [] then "" else PrintNode(nodes[0]) + Print(nodes[1..])
  }

  function PrintNode(n: Node): string {
    match n
    case Text(v) => v
    case Styled(f, children) => [Marker(f)] + Print(children) + [Marker(f)]
    case Code(v) => "`" + v + "`"
    case CodeBlock(v) => "```" + v + "```"
  }

  lemma {:induction false} PrintConcat(a: seq<Node>, b: seq<Node>)
    ensures Print(a + b) == Print(a) + Print(b)
  {
    if a == [] {
      assert a + b == b;
    } else {
      assert (a + b)[1..] == a[1..] + b;
      PrintConcat(a[1..], b);
    }
  }

  lemma PrintThree(a: seq<Node>, n: Node, b: seq<Node>)
    ensures Print(a + [n] + b) == Print(a) + PrintNode(n) + Print(b)
  {
    PrintConcat(a + [n], b);
    PrintConcat(a, [n]);
  }

  /** The first pair cuts a text into five pieces: before, opener, inner, closer, after. */
  lemma CutAtPair(s: string, i: nat, j: nat)
    requires i < j < |s|
    ensures s == s[..i] + ([s[i]] + s[i + 1..j] + [s[j]]) + s[j + 1..]
  {
  }

  lemma PrintStyled(s: string, i: nat, j: nat, f: Format, inner: seq<Node>, after: seq<Node>)
    requires i < j < |s| && s[i] == s[j] == Marker(f)
    requires Print(inner) == s[i + 1..j] && Print(after) == s[j + 1..]
    ensures Print(TextBefore(s[..i]) + [Styled(f, inner)] + after) == s
  {
    PrintThree(TextBefore(s[..i]), Styled(f, inner), after);
    CutAtPair(s, i, j);
  }

  lemma {:induction false} PrintFormatted(s: string)
    ensures Print(Formatted(s)) == s
    decreases |s|
  {
    if Splits(s) {
      var (i, j) := Split(s);
      PrintFormatted(s[i + 1..j]);
      PrintFormatted(s[j + 1..]);
      PrintPair(s, i, j, Formatted(s[i + 1..j]), Formatted(s[j + 1..]));
      FormattedAt(s, i, j);
    } else {
      PrintText(s);
    }
  }

  lemma PrintText(s: string)
    ensures Print(TextBefore(s)) == s
  {
  }

  lemma PrintPair(s: string, i: nat, j: nat, inner: seq<Node>, after: seq<Node>)
    requires FirstPair(s, i, j) && Print(inner) == s[i + 1..j] && Print(after) == s[j + 1..]
    ensures Print(TextBefore(s[..i]) + [Styled(FormatOf(s[i]).value, inner)] + after) == s
  {
    PrintStyled(s, i, j, FormatOf(s[i]).value, inner, after);
  }

  lemma CutAtSegment(s: string, g: Segment)
    requires InBounds(s, 0, g)
    ensures s[g.open..g.End()] ==
            s[g.open..g.open + g.width] + s[g.open + g.width..g.close] + s[g.close..g.End()]
  {
  }

  lemma Backticks(s: string, k: nat)
    ensures k < |s| && s[k] == '`' ==> s[k..k + 1] == "`"
    ensures TripleAt(s, k) ==> s[k..k + 3] == "```"
  {
  }

  lemma PrintSegment(s: string, open: nat)
    ensures TripleAt(s, open) && BlockAt(s, open).Some? ==> PrintsItself(s, BlockAt(s, open).value)
    ensures open < |s| && s[open] == '`' && InlineAt(s, open).Some? ==> PrintsItself(s, InlineAt(s, open).value)
  {
    Backticks(s, open);
    if TripleAt(s, open) && BlockAt(s, open).Some? {
      var g := BlockAt(s, open).value;
      CutAtSegment(s, g);
      Backticks(s, g.close);
    }
    if open < |s| && s[open] == '`' && InlineAt(s, open).Some? {
      var g := InlineAt(s, open).value;
      CutAtSegment(s, g);
      Backticks(s, g.close);
    }
  }

  ghost predicate PrintsItself(s: string, g: Segment)
    requires InBounds(s, 0, g)
  {
    PrintNode(g.node) == s[g.open..g.End()]
  }

  lemma CutAtCode(s: string, cursor: nat, g: Segment)
    requires InBounds(s, cursor, g)
    ensures s[cursor..|s|] == s[cursor..g.open] + s[g.open..g.End()] + s[g.End()..|s|]
  {
  }

  lemma PrintCode(s: string, cursor: nat, g: Segment, rest: seq<Node>)
    requires InBounds(s, cursor, g) && PrintsItself(s, g)
    requires Print(rest) == s[g.End()..|s|]
    ensures Print(Formatted(s[cursor..g.open]) + [g.node] + rest) == s[cursor..|s|]
  {
    PrintFormatted(s[cursor..g.open]);
    PrintThree(Formatted(s[cursor..g.open]), g.node, rest);
    CutAtCode(s, cursor, g);
  }

  lemma {:induction false} PrintAssembled(s: string, cursor: nat, codes: seq<Segment>)
    requires Ordered(s, cursor, codes)
    requires forall g :: g in codes ==> InBounds(s, 0, g) && PrintsItself(s, g)
    ensures Print(Assemble(s, cursor, codes)) == s[cursor..|s|]
    decreases |codes|
  {
    if codes == [] {
      PrintFormatted(s[cursor..|s|]);
    } else {
      PrintAssembled(s, codes[0].End(), codes[1..]);
      PrintCode(s, cursor, codes[0], Assemble(s, codes[0].End(), codes[1..]));
    }
  }

  lemma {:induction false} CodesPrintThemselves(s: string, cursor: nat)
    requires cursor <= |s|
    ensures forall g :: g in Codes(s, cursor) ==> InBounds(s, 0, g) && PrintsItself(s, g)
    decreases |s| - cursor
  {
    match NextSegment(s, cursor)
    case None =>
    case Some(g) =>
      PrintSegment(s, g.open);
      CodesPrintThemselves(s, g.End());
  }

  /** Parser and printer undo each other: no character of any input is lost, added or moved. */
  lemma RoundTrip(s: string)
    ensures Print(Parse(s)) == s
  {
    CodesPrintThemselves(s, 0);
    PrintAssembled(s, 0, Codes(s, 0));
    assert s[0..|s|] == s;
  }

  // ---------------------------------------------------------------- normal form

  /** A code value stops at the nearest closing marker. */
  ghost predicate NormalCode(n: Node) {
    match n
    case Code(v) => '`' !in v
    case CodeBlock(v) => forall k :: k < |v| ==> !TripleAt(v + "```", k)
    case _ => false
  }

  /** No valid pair is left in the text, so parsing it again gives the same single leaf. */
  ghost predicate Irreducible(v: string) {
    v != "" && Formatted(v) == [Text(v)]
  }

  ghost predicate NormalNode(n: Node) {
    match n
    case Text(v) => Irreducible(v)
    case Styled(_, children) => Normal(children) && forall k :: 0 <= k < |children| ==> IsFormat(children[k])
    case _ => NormalCode(n)
  }

  predicate IsFormat(n: Node) {
    n.Text? || n.Styled?
  }

  ghost predicate Normal(nodes: seq<Node>) {
    && (forall k :: 0 <= k < |nodes| ==> NormalNode(nodes[k]))
    && forall k :: 0 < k < |nodes| ==> !(nodes[k - 1].Text? && nodes[k].Text?)
  }

  /** When some pair is valid there is a first one. */
  lemma {:induction false} FirstPairExists(s: string, i: int, j: int)
    requires ValidPair(s, i, j)
    ensures exists a, b :: FirstPair(s, a, b)
    decreases i, j
  {
    if !FirstPair(s, i, j) {
      var a, b :| ValidPair(s, a, b) && !(i < a || (i == a && j <= b));
      FirstPairExists(s, a, b);
    }
  }

  lemma IrreducibleIffNoPair(s: string)
    requires s != ""
    ensures Irreducible(s) <==> forall i, j :: !ValidPair(s, i, j)
  {
    forall i, j | ValidPair(s, i, j)
      ensures Splits(s)
    {
      FirstPairExists(s, i, j);
    }
    if Splits(s) {
      var (i, j) := Split(s);
      assert FormattedPair(s, i, j)[|TextBefore(s[..i])|].Styled?;
    }
  }

  /** The text before the first pair ends in a boundary, so cutting it off creates no new pair. */
  lemma BeforeFirstPair(s: string, i: int, j: int)
    requires FirstPair(s, i, j) && 0 < i
    ensures Irreducible(s[..i])
  {
    var v := s[..i];
    forall a, b | ValidPair(v, a, b)
      ensures false
    {
      if b != i - 1 {
        assert ValidPair(s, a, b);
      }
    }
    IrreducibleIffNoPair(v);
  }

  lemma NormalThree(a: seq<Node>, n: Node, b: seq<Node>)
    requires Normal(a) && Normal(b) && NormalNode(n) && !n.Text?
    ensures Normal(a + [n] + b)
  {
  }

  lemma {:induction false} FormattedIsNormal(s: string)
    ensures Normal(Formatted(s))
    ensures forall k :: 0 <= k < |Formatted(s)| ==> IsFormat(Formatted(s)[k])
    decreases |s|
  {
    if Splits(s) {
      var (i, j) := Split(s);
      FormattedIsNormal(s[i + 1..j]);
      FormattedIsNormal(s[j + 1..]);
      if i > 0 {
        BeforeFirstPair(s, i, j);
      }
      NormalThree(TextBefore(s[..i]), Styled(FormatOf(s[i]).value, Formatted(s[i + 1..j])), Formatted(s[j + 1..]));
    }
  }

  lemma BlockIsNormal(s: string, open: nat)
    requires TripleAt(s, open) && BlockAt(s, open).Some?
    ensures NormalCode(BlockAt(s, open).value.node)
  {
    var g := BlockAt(s, open).value;
    var v := s[g.open + 3..g.close];
    forall k | 0 <= k < |v|
      ensures !TripleAt(v + "```", k)
    {
      FindTripleIsFirst(s, g.open + 3, g.open + 3 + k);
      assert v + "```" == s[g.open + 3..g.close + 3];
    }
  }

  lemma InlineIsNormal(s: string, open: nat)
    requires open < |s| && InlineAt(s, open).Some?
    ensures NormalCode(InlineAt(s, open).value.node)
  {
    var g := InlineAt(s, open).value;
    forall k | g.open + 1 <= k < g.close
      ensures s[k] != '`'
    {
      FindBacktickIsFirst(s, g.open + 1, k);
    }
  }

  lemma SegmentIsNormal(s: string, cursor: nat)
    requires NextSegment(s, cursor).Some?
    ensures NormalCode(NextSegment(s, cursor).value.node)
  {
    var triple := FindTriple(s, cursor);
    var single := SingleBacktick(s, cursor);
    if triple.Some? && (single.None? || triple.value <= single.value) {
      BlockIsNormal(s, triple.value);
    } else {
      InlineIsNormal(s, single.value);
    }
  }

  lemma {:induction false} AssembledIsNormal(s: string, cursor: nat, codes: seq<Segment>)
    requires Ordered(s, cursor, codes)
    requires forall g :: g in codes ==> NormalCode(g.node)
    ensures Normal(Assemble(s, cursor, codes))
    decreases |codes|
  {
    if codes == [] {
      FormattedIsNormal(s[cursor..|s|]);
    } else {
      var g := codes[0];
      FormattedIsNormal(s[cursor..g.open]);
      AssembledIsNormal(s, g.End(), codes[1..]);
      NormalThree(Formatted(s[cursor..g.open]), g.node, Assemble(s, g.End(), codes[1..]));
    }
  }

  lemma {:induction false} CodesAreNormal(s: string, cursor: nat)
    requires cursor <= |s|
    ensures forall g :: g in Codes(s, cursor) ==> NormalCode(g.node)
    decreases |s| - cursor
  {
    match NextSegment(s, cursor)
    case None =>
    case Some(g) =>
      SegmentIsNormal(s, cursor);
      CodesAreNormal(s, g.End());
  }

  /** Every parse is in normal form, at every depth. */
  lemma ParseIsNormal(s: string)
    ensures Normal(Parse(s))
  {
    CodesAreNormal(s, 0);
    AssembledIsNormal(s, 0, Codes(s, 0));
  }

  /** A style is empty exactly when its markers touch. */
  lemma EmptyStyleIff(s: string, i: nat, j: nat)
    requires FirstPair(s, i, j)
    ensures Formatted(s[i + 1..j]) == [] <==> j == i + 1
  {
    PrintFormatted(s[i + 1..j]);
  }

  /** Touching markers do form a pair: two asterisks are an empty bold node. */
  lemma EmptyStyleOccurs()
    ensures Formatted("**") == [Styled(Bold, [])]
  {
    assert ValidPair("**", 0, 1);
    FormattedAt("**", 0, 1);
  }

  // ---------------------------------------------------------------- what is found, character by character

  /**
   * A code segment may open at `k`: a triple starts there, or there is a backtick that is not the tail of a
   * triple around the cursor.
   */
  ghost predicate Opener(s: string, cursor: nat, k: int) {
    && cursor <= k < |s| && s[k] == '`'
    && (TripleAt(s, k) || !TripleAt(s, cursor - 1) || cursor + 1 < k)
  }

  ghost predicate NearestOpener(s: string, cursor: nat, k: int) {
    Opener(s, cursor, k) && forall j :: j < k ==> !Opener(s, cursor, j)
  }

  /** What opened at `open` may close at `c`: three backticks close a triple, one closes a single backtick. */
  ghost predicate Closer(s: string, open: int, c: int) {
    if TripleAt(s, open) then open + 3 <= c && TripleAt(s, c)
    else 0 <= open < c < |s| && s[c] == '`'
  }

  ghost predicate NearestCloser(s: string, open: int, c: int) {
    Closer(s, open, c) && forall j :: j < c ==> !Closer(s, open, j)
  }

  lemma TripleIsFound(s: string, from: nat, t: nat)
    requires from <= t && TripleAt(s, t) && forall k :: from <= k < t ==> !TripleAt(s, k)
    ensures FindTriple(s, from) == Some(t)
  {
    var r := FindTriple(s, from);
    if r.None? || t < r.value {
      FindTripleIsFirst(s, from, t);
    }
  }

  lemma BacktickIsFound(s: string, from: nat, t: nat)
    requires from <= t < |s| && s[t] == '`' && forall k :: from <= k < t ==> s[k] != '`'
    ensures FindBacktick(s, from) == Some(t)
  {
    var r := FindBacktick(s, from);
    if r.None? || t < r.value {
      FindBacktickIsFirst(s, from, t);
    }
  }

  /** With its marker and its closer given, the segment is. */
  lemma SegmentOpensAt(s: string, open: nat, c: nat)
    requires open < |s| && s[open] == '`' && NearestCloser(s, open, c)
    ensures TripleAt(s, open) ==> BlockAt(s, open) == Some(Segment(open, c, 3, CodeBlock(s[open + 3..c])))
    ensures !TripleAt(s, open) ==> InlineAt(s, open) == Some(Segment(open, c, 1, Code(s[open + 1..c])))
  {
    if TripleAt(s, open) {
      forall k | open + 3 <= k < c
        ensures !TripleAt(s, k)
      {
        assert !Closer(s, open, k);
      }
      TripleIsFound(s, open + 3, c);
    } else {
      forall k | open + 1 <= k < c
        ensures s[k] != '`'
      {
        assert !Closer(s, open, k);
      }
      BacktickIsFound(s, open + 1, c);
    }
  }

  /** A marker that is found to be closed has a closer. */
  lemma OpenSegmentCloses(s: string, open: nat)
    requires open < |s| && s[open] == '`'
    requires if TripleAt(s, open) then BlockAt(s, open).Some? else InlineAt(s, open).Some?
    ensures exists c :: Closer(s, open, c)
  {
    var g := if TripleAt(s, open) then BlockAt(s, open).value else InlineAt(s, open).value;
    assert Closer(s, open, g.close);
  }

  lemma NoBacktickIsFound(s: string, from: nat)
    requires forall k :: from <= k < |s| ==> s[k] != '`'
    ensures FindBacktick(s, from).None? && FindTriple(s, from).None? && SingleBacktick(s, from).None?
  {
  }

  /** The backticks in front of the nearest opener belong to a triple that the cursor stands in. */
  lemma TailBeforeOpener(s: string, cursor: nat, k: nat, j: nat)
    requires NearestOpener(s, cursor, k) && cursor <= j < k && s[j] == '`'
    ensures TripleAt(s, cursor - 1) && j <= cursor + 1
  {
    assert !Opener(s, cursor, j);
  }

  lemma FoundIsOpener(s: string, cursor: nat)
    requires SingleBacktick(s, cursor).Some?
    ensures Opener(s, cursor, SingleBacktick(s, cursor).value)
  {
    if TripleAt(s, cursor - 1) {
      SingleIsNoTail(s, cursor);
    }
  }

  /** The triple nearest to the cursor, if the nearest opener is a triple. */
  lemma TripleOpens(s: string, cursor: nat, k: nat)
    requires NearestOpener(s, cursor, k) && TripleAt(s, k)
    ensures FindTriple(s, cursor) == Some(k)
    ensures SingleBacktick(s, cursor).Some? ==> k < SingleBacktick(s, cursor).value
  {
    forall j | cursor <= j < k
      ensures !TripleAt(s, j)
    {
      assert !Opener(s, cursor, j);
    }
    TripleIsFound(s, cursor, k);
    var r := SingleBacktick(s, cursor);
    if r.Some? {
      FoundIsSingle(s, cursor);
      FoundIsOpener(s, cursor);
    }
  }

  /** The scan does not stop in the tail of a triple around the cursor. */
  lemma SingleIsNoTail(s: string, cursor: nat)
    requires SingleBacktick(s, cursor).Some? && TripleAt(s, cursor - 1)
    ensures SingleBacktick(s, cursor).value > cursor + 1
  {
    BacktickIsFound(s, cursor, cursor);
  }

  /** The scan stops at the nearest opener, if that is a single backtick. */
  lemma SingleOpens(s: string, cursor: nat, k: nat)
    requires NearestOpener(s, cursor, k) && !TripleAt(s, k)
    ensures SingleBacktick(s, cursor) == Some(k)
    ensures FindTriple(s, cursor).Some? ==> k < FindTriple(s, cursor).value
  {
    var t := FindTriple(s, cursor);
    if t.Some? && t.value <= k {
      assert Opener(s, cursor, t.value);
    }
    if TripleAt(s, cursor - 1) {
      assert s[cursor] == '`' && !Opener(s, cursor, cursor);
      BacktickIsFound(s, cursor, cursor);
      SingleFrom(s, cursor + 2, cursor, k);
    } else {
      SingleFrom(s, cursor, cursor, k);
    }
  }

  lemma SingleFrom(s: string, from: nat, cursor: nat, k: nat)
    requires NearestOpener(s, cursor, k) && !TripleAt(s, k)
    requires cursor <= from <= k && (if TripleAt(s, cursor - 1) then from == cursor + 2 else from == cursor)
    ensures SingleBacktick(s, from) == Some(k)
  {
    forall j | from <= j < k
      ensures s[j] != '`'
    {
      if s[j] == '`' {
        TailBeforeOpener(s, cursor, k, j);
      }
    }
    BacktickIsFound(s, from, k);
    assert cursor <= k - 1 ==> !Opener(s, cursor, k - 1);
  }

  /** The code that opens at `k` and ends at `c`. */
  ghost predicate IsCode(s: string, k: nat, c: nat, g: Segment) {
    && g.open == k && g.close == c
    && if TripleAt(s, k) then k + 3 <= c <= |s| - 3 && g.width == 3 && g.node == CodeBlock(s[k + 3..c])
       else k < c < |s| && g.width == 1 && g.node == Code(s[k + 1..c])
  }

  ghost function CodeAt(s: string, k: nat, c: nat): (g: Segment)
    requires Closer(s, k, c)
    ensures IsCode(s, k, c, g)
  {
    if TripleAt(s, k) then Segment(k, c, 3, CodeBlock(s[k + 3..c])) else Segment(k, c, 1, Code(s[k + 1..c]))
  }

  /** The next code segment opens at the nearest opener and ends at its nearest closer. */
  lemma SegmentAt(s: string, cursor: nat, k: nat, c: nat, g: Segment)
    requires NearestOpener(s, cursor, k) && NearestCloser(s, k, c) && IsCode(s, k, c, g)
    ensures NextSegment(s, cursor) == Some(g)
  {
    SegmentOpensAt(s, k, c);
    if TripleAt(s, k) {
      TripleOpens(s, cursor, k);
    } else {
      SingleOpens(s, cursor, k);
    }
  }

  lemma {:induction false} NearestOpenerExists(s: string, cursor: nat, k: nat) returns (n: nat)
    requires Opener(s, cursor, k)
    ensures NearestOpener(s, cursor, n)
    decreases k
  {
    n := k;
    if !NearestOpener(s, cursor, k) {
      var j :| j < k && Opener(s, cursor, j);
      n := NearestOpenerExists(s, cursor, j);
    }
  }

  lemma {:induction false} NearestCloserExists(s: string, open: nat, c: nat) returns (n: nat)
    requires Closer(s, open, c)
    ensures NearestCloser(s, open, n)
    decreases c
  {
    n := c;
    if !NearestCloser(s, open, c) {
      var j :| j < c && Closer(s, open, j);
      n := NearestCloserExists(s, open, j);
    }
  }

  lemma NoOpenerNoSegment(s: string, cursor: nat)
    requires forall k :: !Opener(s, cursor, k)
    ensures NextSegment(s, cursor).None?
  {
    var t, r := FindTriple(s, cursor), SingleBacktick(s, cursor);
    if t.Some? {
      assert Opener(s, cursor, t.value);
    }
    if r.Some? {
      FoundIsOpener(s, cursor);
    }
  }

  lemma NoCloserNoSegment(s: string, cursor: nat, k: nat)
    requires NearestOpener(s, cursor, k) && forall c :: !Closer(s, k, c)
    ensures NextSegment(s, cursor).None?
  {
    if TripleAt(s, k) {
      TripleOpens(s, cursor, k);
    } else {
      SingleOpens(s, cursor, k);
    }
    if NextSegment(s, cursor).Some? {
      OpenSegmentCloses(s, k);
    }
  }

  /** No code is found exactly when nothing opens any, or the nearest opener is never closed. */
  lemma NoSegmentIff(s: string, cursor: nat)
    ensures NextSegment(s, cursor).None? <==>
            || (forall k :: !Opener(s, cursor, k))
            || exists k :: NearestOpener(s, cursor, k) && forall c :: !Closer(s, k, c)
  {
    if k :| Opener(s, cursor, k) {
      var n := NearestOpenerExists(s, cursor, k);
      if c :| Closer(s, n, c) {
        var m := NearestCloserExists(s, n, c);
        SegmentAt(s, cursor, n, m, CodeAt(s, n, m));
      } else {
        NoCloserNoSegment(s, cursor, n);
      }
    } else {
      NoOpenerNoSegment(s, cursor);
    }
  }

  /** The parse of the input from `cursor` on. */
  ghost function ParseFrom(s: string, cursor: nat): seq<Node>
    requires cursor <= |s|
  {
    Assemble(s, cursor, Codes(s, cursor))
  }

  lemma AfterSegment(s: string, cursor: nat, g: Segment, text: string)
    requires NextSegment(s, cursor) == Some(g) && text == s[cursor..g.open]
    ensures ParseFrom(s, cursor) == Formatted(text) + [g.node] + ParseFrom(s, g.End())
  {
    assert Codes(s, cursor) == [g] + Codes(s, g.End());
  }

  /** Text, code and the parse behind the code, at the nearest opener that is closed. */
  lemma ParseStep(s: string, cursor: nat, k: nat, c: nat, g: Segment)
    requires NearestOpener(s, cursor, k) && NearestCloser(s, k, c) && IsCode(s, k, c, g)
    ensures InBounds(s, cursor, g)
    ensures ParseFrom(s, cursor) == Formatted(s[cursor..g.open]) + [g.node] + ParseFrom(s, g.End())
  {
    SegmentAt(s, cursor, k, c, g);
    AfterSegment(s, cursor, g, s[cursor..g.open]);
  }

  /** Where no code opens, or what opens is never closed, all that is left is text. */
  lemma TextRemains(s: string, cursor: nat, text: string)
    requires cursor <= |s| && NextSegment(s, cursor).None? && text == s[cursor..]
    ensures ParseFrom(s, cursor) == Formatted(text)
  {
    assert s[cursor..|s|] == text;
  }

  /** A text with one code segment. */
  lemma OneSegment(s: string, g: Segment, a: string, b: string)
    requires NextSegment(s, 0) == Some(g) && forall j :: g.End() <= j < |s| ==> s[j] != '`'
    requires a == s[..g.open] && b == s[g.End()..]
    ensures Parse(s) == Formatted(a) + [g.node] + Formatted(b)
  {
    assert s[0..g.open] == a;
    AfterSegment(s, 0, g, a);
    NoBacktickIsFound(s, g.End());
    TextRemains(s, g.End(), b);
  }

  /** The text `s` is made up of `a`, `w` characters, `v`, `w` characters and `b`. */
  ghost predicate MadeUpOf(s: string, a: string, v: string, b: string, w: nat) {
    && |s| == |a| + |v| + |b| + 2 * w
    && s[..|a|] == a && s[|a| + w..|a| + w + |v|] == v && s[|a| + w + |v| + w..] == b
  }

  lemma Pieces(a: string, m: string, v: string, b: string)
    ensures var s := a + m + v + m + b;
            && MadeUpOf(s, a, v, b, |m|)
            && forall i :: 0 <= i < |m| ==> s[|a| + i] == m[i] == s[|a| + |m| + |v| + i]
  {
  }

  /** A backtick in `s` is one of the markers, if the pieces have none. */
  lemma NotInPieces(s: string, a: string, v: string, b: string, w: nat, j: nat)
    requires MadeUpOf(s, a, v, b, w) && '`' !in a && '`' !in v && '`' !in b
    requires j < |s| && s[j] == '`'
    ensures |a| <= j < |a| + w || |a| + w + |v| <= j < |a| + w + |v| + w
  {
    var c := |a| + w + |v|;
    assert forall i :: 0 <= i < |a| ==> s[i] == a[i];
    assert forall i :: |a| + w <= i < c ==> s[i] == v[i - |a| - w];
    assert forall i :: c + w <= i < |s| ==> s[i] == b[i - c - w];
  }

  lemma OneSegmentAt(s: string, a: string, v: string, b: string, g: Segment)
    requires MadeUpOf(s, a, v, b, g.width) && '`' !in b
    requires g.open == |a| && g.close == |a| + g.width + |v| && NextSegment(s, 0) == Some(g)
    ensures Parse(s) == Formatted(a) + [g.node] + Formatted(b)
  {
    forall j | g.End() <= j < |s|
      ensures s[j] != '`'
    {
      assert s[j] == b[j - g.End()];
    }
    OneSegment(s, g, a, b);
  }

  lemma InlineBetween(s: string, a: string, v: string, b: string)
    requires MadeUpOf(s, a, v, b, 1) && '`' !in a && '`' !in v && '`' !in b
    requires s[|a|] == '`' == s[|a| + 1 + |v|]
    ensures NextSegment(s, 0) == Some(Segment(|a|, |a| + 1 + |v|, 1, Code(v)))
  {
    var k, c := |a|, |a| + 1 + |v|;
    forall j: nat | j < |s| && s[j] == '`'
      ensures j == k || j == c
    {
      NotInPieces(s, a, v, b, 1, j);
    }
    assert NearestOpener(s, 0, k) && NearestCloser(s, k, c);
    SegmentAt(s, 0, k, c, Segment(k, c, 1, Code(v)));
  }

  lemma BlockBetween(s: string, a: string, v: string, b: string)
    requires MadeUpOf(s, a, v, b, 3) && '`' !in a && '`' !in v && '`' !in b
    requires TripleAt(s, |a|) && TripleAt(s, |a| + 3 + |v|)
    ensures NextSegment(s, 0) == Some(Segment(|a|, |a| + 3 + |v|, 3, CodeBlock(v)))
  {
    var k, c := |a|, |a| + 3 + |v|;
    forall j: nat | j < |s| && s[j] == '`'
      ensures k <= j < k + 3 || c <= j < c + 3
    {
      NotInPieces(s, a, v, b, 3, j);
    }
    assert NearestOpener(s, 0, k) && NearestCloser(s, k, c);
    SegmentAt(s, 0, k, c, Segment(k, c, 3, CodeBlock(v)));
  }

  /** Inline code is found wherever it stands. */
  lemma InlineCodeIsFound(a: string, v: string, b: string)
    requires '`' !in a && '`' !in v && '`' !in b
    ensures Parse(a + "`" + v + "`" + b) == Formatted(a) + [Code(v)] + Formatted(b)
  {
    var s := a + "`" + v + "`" + b;
    Pieces(a, "`", v, b);
    assert s[|a| + 0] == "`"[0] == s[|a| + 1 + |v| + 0];
    InlineBetween(s, a, v, b);
    OneSegmentAt(s, a, v, b, Segment(|a|, |a| + 1 + |v|, 1, Code(v)));
  }

  /** So is a block of code. */
  lemma CodeBlockIsFound(a: string, v: string, b: string)
    requires '`' !in a && '`' !in v && '`' !in b
    ensures Parse(a + "```" + v + "```" + b) == Formatted(a) + [CodeBlock(v)] + Formatted(b)
  {
    BlockIsFound(a, "```", v, b);
  }

  lemma BlockIsFound(a: string, m: string, v: string, b: string)
    requires '`' !in a && '`' !in v && '`' !in b
    requires |m| == 3 && m[0] == m[1] == m[2] == '`'
    ensures Parse(a + m + v + m + b) == Formatted(a) + [CodeBlock(v)] + Formatted(b)
  {
    var s := a + m + v + m + b;
    Pieces(a, m, v, b);
    assert s[|a| + 0] == s[|a| + 3 + |v| + 0] == m[0];
    assert s[|a| + 1] == s[|a| + 3 + |v| + 1] == m[1];
    assert s[|a| + 2] == s[|a| + 3 + |v| + 2] == m[2];
    BlockBetween(s, a, v, b);
    OneSegmentAt(s, a, v, b, Segment(|a|, |a| + 3 + |v|, 3, CodeBlock(v)));
  }

  /** An opened code that is never closed stays text, with everything behind it. */
  lemma UnclosedCodeIsText(a: string, b: string)
    requires '`' !in a && '`' !in b
    ensures Parse(a + "`" + b) == Formatted(a + "`" + b)
  {
    var s := a + "`" + b;
    var k := |a|;
    assert forall j :: 0 <= j < |s| && s[j] == '`' ==> j == k;
    assert NearestOpener(s, 0, k);
    NoCloserNoSegment(s, 0, k);
    TextRemains(s, 0, s);
  }

  predicate IsMarker(c: char) {
    c == '*' || c == '_' || c == '~'
  }

  predicate Unmarked(v: string) {
    forall i :: 0 <= i < |v| ==> !IsMarker(v[i])
  }

  const OUTSIDE := {' ', '\t', '\n', '\r', '.', ',', ';', ':', '!', '?',
                    '(', ')', '[', ']', '{', '}', '\'', '"', '<', '>'}

  predicate IsLetterOrDigit(c: char) {
    'a' <= c <= 'z' || 'A' <= c <= 'Z' || '0' <= c <= '9'
  }

  lemma NoPairIsText(v: string)
    requires v != "" && '`' !in v && forall i, j :: !ValidPair(v, i, j)
    ensures Parse(v) == [Text(v)]
  {
    IrreducibleIffNoPair(v);
    NoCodeInText(v);
  }

  lemma NoCodeInText(v: string)
    requires '`' !in v
    ensures Parse(v) == Formatted(v)
  {
    NoBacktickIsFound(v, 0);
    TextRemains(v, 0, v);
  }

  /** Text without markers and backticks is itself. */
  lemma PlainTextIsText(v: string)
    requires v != "" && Unmarked(v) && '`' !in v
    ensures Parse(v) == [Text(v)]
  {
    forall i, j
      ensures !ValidPair(v, i, j)
    {
      assert 0 <= i < |v| ==> !IsMarker(v[i]);
    }
    NoPairIsText(v);
  }

  /** The first pair of a text whose only earlier opener could stand at `i`. */
  lemma PairAt(s: string, i: nat, j: nat)
    requires i + 1 < j < |s| && IsMarker(s[i]) && s[j] == s[i]
    requires Unmarked(s[..i]) && s[i] !in s[i + 1..j]
    requires (i == 0 || IsBoundary(s[i - 1])) && (j == |s| - 1 || IsBoundary(s[j + 1]))
    requires !IsSpace(s[i + 1]) && !IsSpace(s[j - 1])
    ensures FirstPair(s, i, j)
  {
    forall x, y | ValidPair(s, x, y)
      ensures i < x || (i == x && j <= y)
    {
      assert x < i ==> !IsMarker(s[..i][x]);
      assert i < y < j ==> s[i + 1..j][y - i - 1] != s[i];
    }
  }

  lemma StyleAt(s: string, i: nat, j: nat, a: string, f: Format, v: string, b: string)
    requires FirstPair(s, i, j) && '`' !in s && '`' !in v && '`' !in b
    requires FormatOf(s[i]) == Some(f) && s[..i] == a && s[i + 1..j] == v && s[j + 1..] == b
    ensures Parse(s) == TextBefore(a) + [Styled(f, Parse(v))] + Parse(b)
  {
    FormattedAt(s, i, j);
    NoCodeInText(s);
    NoCodeInText(v);
    NoCodeInText(b);
  }

  lemma OutsideIsBoundary(c: char)
    requires c in OUTSIDE
    ensures IsBoundary(c)
  {
  }

  /** The pair of markers around `v`. */
  lemma PairOfPieces(s: string, a: string, m: char, v: string, b: string)
    requires IsMarker(m) && MadeUpOf(s, a, v, b, 1) && s[|a|] == m == s[|a| + 1 + |v|]
    requires Unmarked(a) && (a == "" || a[|a| - 1] in OUTSIDE) && (b == "" || b[0] in OUTSIDE)
    requires v != "" && m !in v && !IsSpace(v[0]) && !IsSpace(v[|v| - 1])
    ensures FirstPair(s, |a|, |a| + 1 + |v|)
  {
    PiecesEnd(s, a, v, b);
    if a != "" {
      OutsideIsBoundary(a[|a| - 1]);
    }
    if b != "" {
      OutsideIsBoundary(b[0]);
    }
    PairAt(s, |a|, |a| + 1 + |v|);
  }

  lemma NoBackticksInPieces(s: string, a: string, v: string, b: string)
    requires MadeUpOf(s, a, v, b, 1) && '`' !in a && '`' !in v && '`' !in b
    requires s[|a|] != '`' && s[|a| + 1 + |v|] != '`'
    ensures '`' !in s
  {
    forall k | 0 <= k < |s|
      ensures s[k] != '`'
    {
      if s[k] == '`' {
        NotInPieces(s, a, v, b, 1, k);
      }
    }
  }

  /**
   * `*` is bold, `_` italic and `~` struck through, between boundaries and around whatever holds no such
   * marker and has no space at its ends.
   */
  lemma StyleIsFound(m: char, f: Format, a: string, v: string, b: string)
    requires (m == '*' && f == Bold) || (m == '_' && f == Italic) || (m == '~' && f == Strike)
    requires '`' !in a && '`' !in v && '`' !in b
    requires Unmarked(a) && (a == "" || a[|a| - 1] in OUTSIDE) && (b == "" || b[0] in OUTSIDE)
    requires v != "" && m !in v && !IsSpace(v[0]) && !IsSpace(v[|v| - 1])
    ensures Parse(a + [m] + v + [m] + b) == (if a == "" then [] else [Text(a)]) + [Styled(f, Parse(v))] + Parse(b)
  {
    Pieces(a, [m], v, b);
    assert (a + [m] + v + [m] + b)[|a| + 0] == [m][0] == (a + [m] + v + [m] + b)[|a| + 1 + |v| + 0];
    StyleOfPieces(a + [m] + v + [m] + b, a, m, f, v, b);
  }

  lemma StyleOfPieces(s: string, a: string, m: char, f: Format, v: string, b: string)
    requires (m == '*' && f == Bold) || (m == '_' && f == Italic) || (m == '~' && f == Strike)
    requires '`' !in a && '`' !in v && '`' !in b
    requires Unmarked(a) && (a == "" || a[|a| - 1] in OUTSIDE) && (b == "" || b[0] in OUTSIDE)
    requires v != "" && m !in v && !IsSpace(v[0]) && !IsSpace(v[|v| - 1])
    requires MadeUpOf(s, a, v, b, 1) && s[|a|] == m == s[|a| + 1 + |v|]
    ensures Parse(s) == (if a == "" then [] else [Text(a)]) + [Styled(f, Parse(v))] + Parse(b)
  {
    PairOfPieces(s, a, m, v, b);
    NoBackticksInPieces(s, a, v, b);
    StyleAt(s, |a|, |a| + 1 + |v|, a, f, v, b);
  }

  /** The characters next to the markers. */
  lemma PiecesEnd(s: string, a: string, v: string, b: string)
    requires v != "" && MadeUpOf(s, a, v, b, 1)
    ensures s[|a| + 1] == v[0] && s[|a| + |v|] == v[|v| - 1]
    ensures a != "" ==> s[|a| - 1] == a[|a| - 1]
    ensures b != "" ==> s[|a| + |v| + 2] == b[0]
  {
    assert s[|a| + 1] == s[|a| + 1..|a| + 1 + |v|][0];
    assert s[|a| + |v|] == s[|a| + 1..|a| + 1 + |v|][|v| - 1];
    assert a != "" ==> s[|a| - 1] == s[..|a|][|a| - 1];
    assert b != "" ==> s[|a| + |v| + 2] == s[|a| + |v| + 2..][0];
  }

  /** The three styles, around plain text. */
  lemma StyledTextIsFound(v: string)
    requires v != "" && Unmarked(v) && '`' !in v && !IsSpace(v[0]) && !IsSpace(v[|v| - 1])
    ensures Parse("*" + v + "*") == [Styled(Bold, [Text(v)])]
    ensures Parse("_" + v + "_") == [Styled(Italic, [Text(v)])]
    ensures Parse("~" + v + "~") == [Styled(Strike, [Text(v)])]
  {
    StyleAlone('*', Bold, v);
    StyleAlone('_', Italic, v);
    StyleAlone('~', Strike, v);
  }

  lemma StyleAlone(m: char, f: Format, v: string)
    requires (m == '*' && f == Bold) || (m == '_' && f == Italic) || (m == '~' && f == Strike)
    requires v != "" && Unmarked(v) && '`' !in v && !IsSpace(v[0]) && !IsSpace(v[|v| - 1])
    ensures Parse([m] + v + [m]) == [Styled(f, [Text(v)])]
  {
    assert m !in v;
    StyleIsFound(m, f, "", v, "");
    PlainTextIsText(v);
    assert "" + [m] + v + [m] + "" == [m] + v + [m];
  }

  /** Position `i` follows a letter or a digit, precedes a space, or ends the text. */
  predicate CannotOpen(s: string, i: nat)
    requires i < |s|
  {
    (i > 0 && IsLetterOrDigit(s[i - 1])) || i == |s| - 1 || s[i + 1] == ' '
  }

  /** Position `i` precedes a letter or a digit, follows a space, or starts the text. */
  predicate CannotClose(s: string, i: nat)
    requires i < |s|
  {
    (i < |s| - 1 && IsLetterOrDigit(s[i + 1])) || i == 0 || s[i - 1] == ' '
  }

  /** Markers that cannot open, and markers that cannot close, are text. */
  lemma InertMarkersAreText(s: string)
    requires s != "" && '`' !in s
    requires
      || (forall i :: 0 <= i < |s| && IsMarker(s[i]) ==> CannotOpen(s, i))
      || (forall i :: 0 <= i < |s| && IsMarker(s[i]) ==> CannotClose(s, i))
    ensures Parse(s) == [Text(s)]
  {
    forall i, j
      ensures !ValidPair(s, i, j)
    {
      if 0 <= i < j < |s| && FormatOf(s[i]).Some? && s[j] == s[i] {
        assert IsMarker(s[i]) && IsMarker(s[j]);
        assert CannotOpen(s, i) || CannotClose(s, j);
      }
    }
    NoPairIsText(s);
  }
}
