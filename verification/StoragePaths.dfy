/**
 * From storage keys to file names (src/common/utils/path-safety.ts and the two path resolvers of
 * src/core/plugins/plugin-storage.service.ts:213-225), for POSIX paths relative to the plugin directory.
 */
module StoragePaths {
  import opened Wrappers
  import opened StorageKeyCodec
  import opened Sequences

  const BACKSLASH: byte := '\\' as int
  const DOT: byte := '.' as int
  const JSON: Bytes := ['.' as int, 'j' as int, 's' as int, 'o' as int, 'n' as int]
  const TMP: Bytes := ['.' as int, 't' as int, 'm' as int, 'p' as int]

  predicate IsRealSegment(part: Bytes) {
    part != [] && part != [DOT]
  }

  function RealSegments(parts: seq<Bytes>): seq<Bytes> {
    if parts == [] then []
    else (if IsRealSegment(parts[0]) then [parts[0]] else []) + RealSegments(parts[1..])
  }

  /** `path.join` drops empty and `.` segments (`..` segments never reach it). */
  function Normalize(name: Bytes): Bytes {
    Join(RealSegments(Split(name, {SLASH})), SLASH)
  }

  /** `isSafeStorageKey`. */
  predicate IsSafeStorageKey(key: Bytes) {
    && key != []
    && (forall c :: c in key ==> 0x20 <= c)
    && key[0] != SLASH
    && [DOT, DOT] !in Split(key, {SLASH, BACKSLASH})
  }

  /** `isPathWithin` of a relative name: only a `..` segment could leave the directory. */
  predicate IsPathWithin(name: Bytes) {
    [DOT, DOT] !in Split(name, {SLASH})
  }

  function EncodedFile(key: Bytes): Bytes {
    EncodeStorageKey(key) + JSON
  }

  function LegacyFile(key: Bytes): Bytes {
    Normalize(key + JSON)
  }

  function ResolveKeyPath(key: Bytes): Option<Bytes> {
    if IsSafeStorageKey(key) && IsPathWithin(EncodedFile(key)) then Some(EncodedFile(key)) else None
  }

  function ResolveLegacyKeyPath(key: Bytes): Option<Bytes> {
    if IsSafeStorageKey(key) && IsPathWithin(key + JSON) then Some(LegacyFile(key)) else None
  }

  // ---------------------------------------------------------------- splitting

  /** A suffix without separators only makes the last segment longer. */
  lemma {:induction false} SplitSuffix(s: Bytes, suffix: Bytes, separators: set<byte>)
    requires forall c :: c in suffix ==> c !in separators
    ensures Split(s + suffix, separators) == LastExtended(Split(s, separators), suffix)
  {
    if s == [] {
      assert s + suffix == suffix;
      SplitWhole(suffix, separators);
    } else {
      assert (s + suffix)[1..] == s[1..] + suffix;
      SplitSuffix(s[1..], suffix, separators);
      var rest := Split(s[1..], separators);
      if s[0] in separators {
        assert [[]] + LastExtended(rest, suffix) == LastExtended([[]] + rest, suffix);
      } else {
        ExtendBothEnds(s[0], rest, suffix);
      }
    }
  }

  function LastExtended(parts: seq<Bytes>, suffix: Bytes): seq<Bytes>
    requires |parts| > 0
  {
    parts[..|parts| - 1] + [parts[|parts| - 1] + suffix]
  }

  lemma ExtendBothEnds(c: byte, parts: seq<Bytes>, suffix: Bytes)
    requires |parts| > 0
    ensures var longer := LastExtended(parts, suffix);
            [[c] + longer[0]] + longer[1..] == LastExtended([[c] + parts[0]] + parts[1..], suffix)
  {
    if |parts| == 1 {
      assert [c] + (parts[0] + suffix) == ([c] + parts[0]) + suffix;
    }
  }

  /** Every `/`-segment without a `\` in it is a segment of the split on both separators. */
  lemma {:induction false} SplitFiner(s: Bytes, part: Bytes)
    requires part in Split(s, {SLASH}) && BACKSLASH !in part
    ensures part in Split(s, {SLASH, BACKSLASH})
    ensures Split(s, {SLASH})[0] == part ==> Split(s, {SLASH, BACKSLASH})[0] == part
  {
    if s != [] {
      var coarse, fine := Split(s[1..], {SLASH}), Split(s[1..], {SLASH, BACKSLASH});
      if s[0] == SLASH {
        if part in coarse {
          SplitFiner(s[1..], part);
        }
      } else if part == [s[0]] + coarse[0] {
        assert forall c :: c in coarse[0] ==> c in part;
        assert part[0] == s[0];
        SplitFiner(s[1..], coarse[0]);
        if part in coarse[1..] {
        }
      } else {
        assert part in coarse[1..];
        SplitFinerTail(s[1..], part);
      }
    }
  }

  lemma {:induction false} SplitFinerTail(s: Bytes, part: Bytes)
    requires part in Split(s, {SLASH})[1..] && BACKSLASH !in part
    ensures part in Split(s, {SLASH, BACKSLASH})[1..]
  {
    var coarse, fine := Split(s[1..], {SLASH}), Split(s[1..], {SLASH, BACKSLASH});
    if s[0] == SLASH {
      SplitFiner(s[1..], part);
      assert Split(s, {SLASH, BACKSLASH})[1..] == fine;
      assert Split(s, {SLASH})[1..] == coarse;
    } else {
      assert Split(s, {SLASH})[1..] == coarse[1..];
      SplitFinerTail(s[1..], part);
      if s[0] == BACKSLASH {
        assert Split(s, {SLASH, BACKSLASH})[1..] == fine;
      } else {
        assert Split(s, {SLASH, BACKSLASH})[1..] == fine[1..];
      }
    }
  }

  // ---------------------------------------------------------------- safe keys, character by character

  /** `part` stands at `i`, between separators or the ends of the text. */
  ghost predicate SegmentAt(s: Bytes, separators: set<byte>, part: Bytes, i: nat) {
    && i + |part| <= |s| && s[i..i + |part|] == part
    && (i == 0 || s[i - 1] in separators)
    && (i + |part| == |s| || s[i + |part|] in separators)
  }

  /** The first part of a split is what stands in front of the first separator. */
  lemma {:induction false} FirstPart(s: Bytes, separators: set<byte>, part: Bytes)
    requires forall c :: c in part ==> c !in separators
    ensures Split(s, separators)[0] == part <==> SegmentAt(s, separators, part, 0)
  {
    if s != [] && s[0] !in separators && part != [] {
      FirstPart(s[1..], separators, part[1..]);
      var rest := Split(s[1..], separators);
      assert part == [part[0]] + part[1..];
      assert s == [s[0]] + s[1..];
      assert SegmentAt(s, separators, part, 0) <==>
             part[0] == s[0] && SegmentAt(s[1..], separators, part[1..], 0);
    }
  }

  /** Splitting finds exactly the parts that stand between separators. */
  lemma {:induction false} PartIff(s: Bytes, separators: set<byte>, part: Bytes)
    requires forall c :: c in part ==> c !in separators
    ensures part in Split(s, separators) <==> exists i :: SegmentAt(s, separators, part, i)
  {
    if part in Split(s, separators) {
      var i := PartIsSegment(s, separators, part);
    }
    if i :| SegmentAt(s, separators, part, i) {
      SegmentIsPart(s, separators, part, i);
    }
  }

  /** A part that stands in the tail stands in the whole, unless the character in front would be part of it. */
  lemma SegmentOfTail(s: Bytes, separators: set<byte>, part: Bytes, i: nat)
    requires s != [] && (i == 0 ==> s[0] in separators)
    ensures SegmentAt(s[1..], separators, part, i) <==> SegmentAt(s, separators, part, i + 1)
  {
    if i + |part| < |s| {
      assert s[1..][i..i + |part|] == s[i + 1..i + 1 + |part|];
    }
  }

  lemma OtherParts(s: Bytes, separators: set<byte>)
    requires s != []
    ensures var rest := Split(s[1..], separators);
            Split(s, separators)[1..] == if s[0] in separators then rest else rest[1..]
  {
  }

  lemma {:induction false} PartIsSegment(s: Bytes, separators: set<byte>, part: Bytes) returns (i: nat)
    requires part in Split(s, separators) && forall c :: c in part ==> c !in separators
    ensures SegmentAt(s, separators, part, i)
    ensures part in Split(s, separators)[1..] ==> 0 < i
  {
    FirstPart(s, separators, part);
    if part in Split(s, separators)[1..] {
      OtherParts(s, separators);
      var j := PartIsSegment(s[1..], separators, part);
      SegmentOfTail(s, separators, part, j);
      i := j + 1;
    } else {
      i := 0;
    }
  }

  lemma {:induction false} SegmentIsPart(s: Bytes, separators: set<byte>, part: Bytes, i: nat)
    requires SegmentAt(s, separators, part, i) && forall c :: c in part ==> c !in separators
    ensures part in if i == 0 then Split(s, separators) else Split(s, separators)[1..]
  {
    if i == 0 {
      FirstPart(s, separators, part);
    } else {
      SegmentOfTail(s, separators, part, i - 1);
      SegmentIsPart(s[1..], separators, part, i - 1);
      OtherParts(s, separators);
    }
  }

  /** Two dots stand at `i`, between slashes, backslashes or the ends of the key. */
  predicate DotsAt(key: Bytes, i: nat) {
    && i + 2 <= |key| && key[i] == key[i + 1] == '.' as int
    && (i == 0 || key[i - 1] == '/' as int || key[i - 1] == '\\' as int)
    && (i + 2 == |key| || key[i + 2] == '/' as int || key[i + 2] == '\\' as int)
  }

  lemma DotsAreSegment(key: Bytes, i: nat)
    ensures SegmentAt(key, {SLASH, BACKSLASH}, [DOT, DOT], i) <==> DotsAt(key, i)
  {
    if i + 2 <= |key| {
      assert key[i..i + 2] == [key[i], key[i + 1]];
    }
  }

  /** A key is refused exactly if it is empty, absolute, holds a control character or leads upwards. */
  lemma SafeIff(key: Bytes)
    ensures IsSafeStorageKey(key) <==>
            && |key| > 0 && key[0] != '/' as int
            && (forall i :: 0 <= i < |key| ==> 32 <= key[i])
            && forall i :: 0 <= i < |key| ==> !DotsAt(key, i)
  {
    PartIff(key, {SLASH, BACKSLASH}, [DOT, DOT]);
    forall i: nat
      ensures SegmentAt(key, {SLASH, BACKSLASH}, [DOT, DOT], i) ==> i < |key| && DotsAt(key, i)
      ensures DotsAt(key, i) ==> SegmentAt(key, {SLASH, BACKSLASH}, [DOT, DOT], i)
    {
      DotsAreSegment(key, i);
    }
    assert (forall c :: c in key ==> 0x20 <= c) ==> forall i :: 0 <= i < |key| ==> key[i] in key && 32 <= key[i];
  }

  /** Both resolvers accept exactly the safe keys: the containment check never refuses one. */
  lemma ResolversAcceptSafeKeys(key: Bytes)
    ensures ResolveKeyPath(key).Some? <==> IsSafeStorageKey(key)
    ensures ResolveLegacyKeyPath(key).Some? <==> IsSafeStorageKey(key)
  {
    EncodedFileIsFlat(key);
    SplitWhole(EncodedFile(key), {SLASH});
    EncodedKeyShape(key);
    if IsSafeStorageKey(key) {
      SplitSuffix(key, JSON, {SLASH});
      var parts := Split(key, {SLASH});
      if [DOT, DOT] in parts[..|parts| - 1] {
        SplitFiner(key, [DOT, DOT]);
      }
    }
  }

  /** An encoded file name contains no separator, so it is its own normal form. */
  lemma EncodedFileIsFlat(key: Bytes)
    ensures SLASH !in EncodedFile(key) && Normalize(EncodedFile(key)) == EncodedFile(key)
  {
    EncodedKeyShape(key);
    FlatNameIsNormal(EncodedFile(key));
  }

  lemma FlatNameIsNormal(name: Bytes)
    requires SLASH !in name && IsRealSegment(name)
    ensures Normalize(name) == name
  {
    SplitWhole(name, {SLASH});
    RealSegmentsAll([name]);
  }

  /** The files of a key without slashes: its encoded name and the key itself, with `.json` behind. */
  lemma FilesOfFlatKey(key: Bytes)
    requires key != [] && SLASH !in key
    ensures EncodedFile(key) == EncodeStorageKey(key) + ['.' as int, 'j' as int, 's' as int, 'o' as int, 'n' as int]
    ensures LegacyFile(key) == key + ['.' as int, 'j' as int, 's' as int, 'o' as int, 'n' as int]
  {
    FlatNameIsNormal(key + JSON);
  }

  // ---------------------------------------------------------------- normal names

  lemma {:induction false} RealSegmentsAll(parts: seq<Bytes>)
    requires forall p :: p in parts ==> IsRealSegment(p)
    ensures RealSegments(parts) == parts
  {
    if parts != [] {
      RealSegmentsAll(parts[1..]);
    }
  }

  lemma JoinLength(part: Bytes, rest: seq<Bytes>)
    ensures |Join([part] + rest, SLASH)| == if rest == [] then |part| else |part| + 1 + |Join(rest, SLASH)|
  {
    assert ([part] + rest)[1..] == rest;
  }

  /** Dropping segments never makes a path longer, and dropping at least one makes it shorter. */
  lemma {:induction false} RealSegmentsShorten(parts: seq<Bytes>)
    ensures |Join(RealSegments(parts), SLASH)| <= |Join(parts, SLASH)|
    ensures RealSegments(parts) != [] && (exists p :: p in parts && !IsRealSegment(p)) ==>
              |Join(RealSegments(parts), SLASH)| < |Join(parts, SLASH)|
  {
    if parts != [] {
      var rest := parts[1..];
      RealSegmentsShorten(rest);
      JoinLength(parts[0], rest);
      JoinLength(parts[0], RealSegments(rest));
      assert parts == [parts[0]] + rest;
      assert RealSegments(parts)
          == if IsRealSegment(parts[0]) then [parts[0]] + RealSegments(rest) else RealSegments(rest);
    }
  }

  /** A name ending in `.json` survives `path.join` unchanged exactly when it has no empty and no `.` segment. */
  lemma NormalIff(key: Bytes)
    ensures Normalize(key + JSON) == key + JSON <==>
            forall p :: p in Split(key + JSON, {SLASH}) ==> IsRealSegment(p)
  {
    var parts := Split(key + JSON, {SLASH});
    JoinSplit(key + JSON, SLASH);
    RealSegmentsShorten(parts);
    if forall p :: p in parts ==> IsRealSegment(p) {
      RealSegmentsAll(parts);
    }
  }
}
