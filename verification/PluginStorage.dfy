/**
 * The per-plugin key-value store (src/core/plugins/plugin-storage.service.ts, `atomicWriteFileSync` and
 * `createPluginStorage`): a directory of encoded files and of legacy files named after the plain key.
 *
 * The first half works on directories as values. The class at the end performs the file-system calls one
 * by one, any of which may fail, and records every state the directory passes through in `history`, so
 * that stopping at any moment is covered.
 */
module PluginStorage {
  import opened Wrappers
  import opened StorageKeyCodec
  import opened StoragePaths
  import opened Sequences

  /** The text of a file: what `JSON.stringify` writes, or something `JSON.parse` rejects. */
  datatype Content<+V> = Json(value: V) | Torn

  type Directory<V> = map<Bytes, Content<V>>

  predicate IsJson(file: Bytes) {
    |JSON| <= |file| && file[|file| - |JSON|..] == JSON
  }

  function Stem(file: Bytes): Bytes
    requires IsJson(file)
  {
    file[..|file| - |JSON|]
  }

  /** The key a listed file stands for. */
  function KeyOf(file: Bytes): Bytes
    requires IsJson(file)
  {
    match DecodeStorageFileName(Stem(file))
    case Some(key) => key
    case None => Stem(file)
  }

  /** A safe key that neither looks like an encoded name nor changes under `path.join`. */
  ghost predicate Plain(key: Bytes) {
    && IsSafeStorageKey(key)
    && DecodeStorageFileName(key).None?
    && LegacyFile(key) == key + JSON
  }

  /** A flat directory whose `.json` files all stand for plain keys; other files may lie about. */
  ghost predicate WellFormed<V>(dir: Directory<V>) {
    forall f :: f in dir ==> SLASH !in f && (IsJson(f) ==> Plain(KeyOf(f)))
  }

  // ---------------------------------------------------------------- reading

  /** The file `get` reads: the encoded one if it exists, else the legacy one. */
  function Stored<V>(dir: Directory<V>, key: Bytes): Option<Content<V>> {
    if EncodedFile(key) in dir then Some(dir[EncodedFile(key)])
    else if LegacyFile(key) in dir then Some(dir[LegacyFile(key)])
    else None
  }

  function Parsed<V>(c: Option<Content<V>>): Option<V> {
    if c.Some? && c.value.Json? then Some(c.value.value) else None
  }

  ghost function Keys<V>(dir: Directory<V>): set<Bytes> {
    set f | f in dir && IsJson(f) :: KeyOf(f)
  }

  /** The map the directory stands for. */
  ghost function Abstract<V>(dir: Directory<V>): map<Bytes, Content<V>>
    requires WellFormed(dir)
  {
    StoredIffKey(dir);
    map key | key in Keys(dir) :: Stored(dir, key).value
  }

  lemma FileNames(key: Bytes)
    ensures IsJson(EncodedFile(key)) && Stem(EncodedFile(key)) == EncodeStorageKey(key)
    ensures KeyOf(EncodedFile(key)) == key
    ensures IsJson(key + JSON) && Stem(key + JSON) == key
  {
    DecodeIffEncoded(EncodeStorageKey(key), key);
  }

  lemma FileOf(file: Bytes)
    requires IsJson(file)
    ensures file == Stem(file) + JSON
    ensures file == EncodedFile(KeyOf(file)) || (KeyOf(file) == Stem(file) && DecodeStorageFileName(Stem(file)).None?)
  {
    DecodeIffEncoded(Stem(file), KeyOf(file));
  }

  /** A plain key is listed exactly when `get` finds a file for it. */
  lemma StoredIffKey<V>(dir: Directory<V>)
    requires WellFormed(dir)
    ensures forall key :: key in Keys(dir) ==> Plain(key)
    ensures forall key :: Plain(key) ==> (key in Keys(dir) <==> Stored(dir, key).Some?)
  {
    forall key | Plain(key)
      ensures key in Keys(dir) <==> Stored(dir, key).Some?
    {
      FileNames(key);
      if key in Keys(dir) {
        var f :| f in dir && IsJson(f) && KeyOf(f) == key;
        FileOf(f);
      }
      assert LegacyFile(key) in dir ==> KeyOf(LegacyFile(key)) == key;
    }
  }

  lemma InAbstract<V>(dir: Directory<V>, key: Bytes)
    requires WellFormed(dir)
    ensures key in Abstract(dir) <==> Plain(key) && Stored(dir, key).Some?
    ensures key in Abstract(dir) ==> Stored(dir, key) == Some(Abstract(dir)[key])
  {
    StoredIffKey(dir);
  }

  // ---------------------------------------------------------------- writing

  function AfterSet<V>(dir: Directory<V>, key: Bytes, value: V): Directory<V> {
    (dir - {LegacyFile(key)})[EncodedFile(key) := Json(value)]
  }

  function AfterDelete<V>(dir: Directory<V>, key: Bytes): Directory<V> {
    dir - {EncodedFile(key), LegacyFile(key)}
  }

  /** The two file names of a key are never the same. */
  lemma LegacyDiffersFromEncoded(key: Bytes)
    ensures LegacyFile(key) != EncodedFile(key)
  {
    EncodedKeyShape(key);
    JoinSplit(key + JSON, SLASH);
    RealSegmentsShorten(Split(key + JSON, {SLASH}));
  }

  /** Plain keys never share a file. */
  lemma PlainKeysAreApart(key: Bytes, other: Bytes)
    requires Plain(key) && Plain(other) && key != other
    ensures {EncodedFile(key), LegacyFile(key)} !! {EncodedFile(other), LegacyFile(other)}
  {
    FileNames(key);
    FileNames(other);
    if EncodedFile(key) == LegacyFile(other) {
      DecodeIffEncoded(other, key);
    }
    if EncodedFile(other) == LegacyFile(key) {
      DecodeIffEncoded(key, other);
    }
  }

  /** What the directory stores under `other` after `key` is written. */
  lemma SetStores<V>(dir: Directory<V>, key: Bytes, value: V, other: Bytes)
    requires Plain(key) && Plain(other)
    ensures Stored(AfterSet(dir, key, value), other) == if other == key then Some(Json(value)) else Stored(dir, other)
    ensures Stored(dir[EncodedFile(key) := Json(value)], other) ==
      if other == key then Some(Json(value)) else Stored(dir, other)
  {
    if other != key {
      PlainKeysAreApart(key, other);
    }
  }

  /** What the directory stores under `other` while and after `key` is deleted. */
  lemma DeleteStores<V>(dir: Directory<V>, key: Bytes, other: Bytes)
    requires Plain(key) && Plain(other)
    ensures Stored(AfterDelete(dir, key), other) == if other == key then None else Stored(dir, other)
    ensures other != key ==> Stored(dir - {EncodedFile(key)}, other) == Stored(dir, other)
  {
    if other != key {
      PlainKeysAreApart(key, other);
    }
  }

  lemma SetIsWellFormed<V>(dir: Directory<V>, key: Bytes, value: V)
    requires WellFormed(dir) && Plain(key)
    ensures WellFormed(AfterSet(dir, key, value)) && WellFormed(dir[EncodedFile(key) := Json(value)])
  {
    FileNames(key);
    EncodedFileIsFlat(key);
  }

  /** Two directories that differ for a plain key at most: either at `key`, or nowhere. */
  ghost predicate Updates<V>(dir: Directory<V>, after: Directory<V>, key: Bytes, c: Option<Content<V>>) {
    forall k :: Plain(k) ==> Stored(after, k) == if k == key then c else Stored(dir, k)
  }

  lemma UpdatesMapAt<V>(dir: Directory<V>, after: Directory<V>, key: Bytes, c: Option<Content<V>>, k: Bytes)
    requires WellFormed(dir) && WellFormed(after) && Plain(key) && Updates(dir, after, key, c)
    ensures k in Abstract(after) <==> if k == key then c.Some? else k in Abstract(dir)
    ensures k in Abstract(after) ==> Abstract(after)[k] == if k == key then c.value else Abstract(dir)[k]
  {
    InAbstract(dir, k);
    InAbstract(after, k);
  }

  lemma MapUpdate<K, V>(m: map<K, V>, n: map<K, V>, key: K, c: Option<V>)
    requires forall k :: k in n <==> if k == key then c.Some? else k in m
    requires forall k :: k in n ==> n[k] == if k == key then c.value else m[k]
    ensures n == if c.Some? then m[key := c.value] else m - {key}
  {
  }

  lemma UpdatesMap<V>(dir: Directory<V>, after: Directory<V>, key: Bytes, c: Option<Content<V>>)
    requires WellFormed(dir) && WellFormed(after) && Plain(key) && Updates(dir, after, key, c)
    ensures Abstract(after) == if c.Some? then Abstract(dir)[key := c.value] else Abstract(dir) - {key}
  {
    forall k { UpdatesMapAt(dir, after, key, c, k); }
    MapUpdate(Abstract(dir), Abstract(after), key, c);
  }

  /** `set` updates the map at its key; the legacy file, if any, no longer matters. */
  lemma SetRefinesUpdate<V>(dir: Directory<V>, key: Bytes, value: V)
    requires WellFormed(dir) && Plain(key)
    ensures WellFormed(AfterSet(dir, key, value))
    ensures Abstract(AfterSet(dir, key, value)) == Abstract(dir)[key := Json(value)]
  {
    SetIsWellFormed(dir, key, value);
    forall k | Plain(k) { SetStores(dir, key, value, k); }
    UpdatesMap(dir, AfterSet(dir, key, value), key, Some(Json(value)));
  }

  /** Between the rename and the unlink the encoded file already shadows the legacy one. */
  lemma EncodedShadowsLegacy<V>(dir: Directory<V>, key: Bytes, value: V)
    requires WellFormed(dir) && Plain(key)
    ensures WellFormed(dir[EncodedFile(key) := Json(value)])
    ensures Abstract(dir[EncodedFile(key) := Json(value)]) == Abstract(dir)[key := Json(value)]
  {
    SetIsWellFormed(dir, key, value);
    forall k | Plain(k) { SetStores(dir, key, value, k); }
    UpdatesMap(dir, dir[EncodedFile(key) := Json(value)], key, Some(Json(value)));
  }

  /** `delete` removes the key from the map, whichever files held it. */
  lemma DeleteRefinesRemoval<V>(dir: Directory<V>, key: Bytes)
    requires WellFormed(dir) && Plain(key)
    ensures WellFormed(AfterDelete(dir, key))
    ensures Abstract(AfterDelete(dir, key)) == Abstract(dir) - {key}
  {
    forall k | Plain(k) { DeleteStores(dir, key, k); }
    UpdatesMap(dir, AfterDelete(dir, key), key, None);
  }

  /** `get` reads the map. */
  lemma GetRefinesLookup<V>(dir: Directory<V>, key: Bytes)
    requires WellFormed(dir) && Plain(key)
    ensures Stored(dir, key) == if key in Abstract(dir) then Some(Abstract(dir)[key]) else None
  {
    InAbstract(dir, key);
  }

  // ---------------------------------------------------------------- listing

  /** `Array.from(new Set(s))`. */
  function Distinct(s: seq<Bytes>): seq<Bytes> {
    if s == [] then []
    else
      var d := Distinct(s[..|s| - 1]);
      if s[|s| - 1] in d then d else d + [s[|s| - 1]]
  }

  /** Filters to `.json`, drops the extension and decodes. */
  function KeysOf(files: seq<Bytes>): seq<Bytes> {
    if files == [] then []
    else KeysOf(files[..|files| - 1]) + if IsJson(files[|files| - 1]) then [KeyOf(files[|files| - 1])] else []
  }

  function WithPrefix(keys: seq<Bytes>, prefix: Bytes): seq<Bytes> {
    if keys == [] then []
    else
      WithPrefix(keys[..|keys| - 1], prefix) +
      if StartsWith(keys[|keys| - 1], prefix) then [keys[|keys| - 1]] else []
  }

  /** `list`; a missing or empty prefix keeps every key. */
  function ListKeys(files: seq<Bytes>, prefix: Option<Bytes>): seq<Bytes> {
    var keys := Distinct(KeysOf(files));
    if prefix.Some? && prefix.value != [] then WithPrefix(keys, prefix.value) else keys
  }

  lemma {:induction false} DistinctMembers(s: seq<Bytes>)
    ensures NoDuplicates(Distinct(s)) && forall k :: k in Distinct(s) <==> k in s
  {
    if s != [] {
      var n := |s| - 1;
      DistinctMembers(s[..n]);
      assert s == s[..n] + [s[n]];
    }
  }

  lemma {:induction false} KeysOfMembers(files: seq<Bytes>, k: Bytes)
    ensures k in KeysOf(files) <==> exists f :: f in files && IsJson(f) && KeyOf(f) == k
  {
    if files != [] {
      var n := |files| - 1;
      KeysOfMembers(files[..n], k);
      assert files == files[..n] + [files[n]];
    }
  }

  lemma {:induction false} WithPrefixMembers(keys: seq<Bytes>, prefix: Bytes)
    requires NoDuplicates(keys)
    ensures NoDuplicates(WithPrefix(keys, prefix))
    ensures forall k :: k in WithPrefix(keys, prefix) <==> k in keys && prefix <= k
  {
    if keys != [] {
      var n := |keys| - 1;
      WithPrefixMembers(keys[..n], prefix);
      assert keys == keys[..n] + [keys[n]];
      assert keys[n] !in keys[..n];
    }
  }

  /** `list` returns the keys of the map that have the prefix, each once, in whatever order files come. */
  lemma ListIsDomain<V>(dir: Directory<V>, files: seq<Bytes>, prefix: Option<Bytes>)
    requires WellFormed(dir) && forall f :: f in files <==> f in dir
    ensures NoDuplicates(ListKeys(files, prefix))
    ensures forall k :: k in ListKeys(files, prefix) <==>
              k in Abstract(dir) && (if prefix.Some? then prefix.value else []) <= k
  {
    var keys := Distinct(KeysOf(files));
    DistinctMembers(KeysOf(files));
    forall k
      ensures k in keys <==> k in Abstract(dir)
    {
      KeysOfMembers(files, k);
    }
    if prefix.Some? && prefix.value != [] {
      WithPrefixMembers(keys, prefix.value);
    }
  }

  // ---------------------------------------------------------------- whole runs

  datatype Op<V> =
    | Get(key: Bytes)
    | Set(key: Bytes, value: V)
    | Delete(key: Bytes)
    | List(prefix: Option<Bytes>)

  /** What an operation answers; a listing is recorded as the set of its keys and the number of its entries. */
  datatype Answer<V> = Found(value: Option<V>) | Done | Refused | Listed(keys: set<Bytes>, entries: nat)

  /** The key of an operation, where it is accepted. */
  function SafeKey<V>(op: Op<V>): Option<Bytes> {
    match op
    case Get(k) => if IsSafeStorageKey(k) then Some(k) else None
    case Set(k, _) => if IsSafeStorageKey(k) then Some(k) else None
    case Delete(k) => if IsSafeStorageKey(k) then Some(k) else None
    case List(_) => None
  }

  ghost predicate ListsDirectory<V(!new)>(readdir: Directory<V> -> seq<Bytes>) {
    forall dir, f :: f in readdir(dir) <==> f in dir
  }

  function StepOnFiles<V>(
      dir: Directory<V>, readdir: Directory<V> -> seq<Bytes>, op: Op<V>): (Directory<V>, Answer<V>) {
    match op
    case Get(k) => (dir, Found(if IsSafeStorageKey(k) then Parsed(Stored(dir, k)) else None))
    case Set(k, v) => if IsSafeStorageKey(k) then (AfterSet(dir, k, v), Done) else (dir, Refused)
    case Delete(k) => if IsSafeStorageKey(k) then (AfterDelete(dir, k), Done) else (dir, Refused)
    case List(prefix) =>
      var keys := ListKeys(readdir(dir), prefix);
      (dir, Listed(set k | k in keys, |keys|))
  }

  /** The same operation on a plain map. */
  function StepOnMap<V>(m: map<Bytes, Content<V>>, op: Op<V>): (map<Bytes, Content<V>>, Answer<V>) {
    match op
    case Get(k) =>
      if IsSafeStorageKey(k) && k in m then
        match m[k]
        case Json(value) => (m, Found(Some(value)))
        case Torn => (m, Found(None))
      else (m, Found(None))
    case Set(k, v) => if IsSafeStorageKey(k) then (m[k := Json(v)], Done) else (m, Refused)
    case Delete(k) => if IsSafeStorageKey(k) then (m - {k}, Done) else (m, Refused)
    case List(prefix) =>
      var keys := set k | k in m && (if prefix.Some? then prefix.value else []) <= k;
      (m, Listed(keys, |keys|))
  }

  function RunOnFiles<V>(dir: Directory<V>, readdir: Directory<V> -> seq<Bytes>, ops: seq<Op<V>>)
    : (Directory<V>, seq<Answer<V>>)
  {
    if ops == [] then (dir, [])
    else
      var (before, answers) := RunOnFiles(dir, readdir, ops[..|ops| - 1]);
      var (after, answer) := StepOnFiles(before, readdir, ops[|ops| - 1]);
      (after, answers + [answer])
  }

  function RunOnMap<V>(m: map<Bytes, Content<V>>, ops: seq<Op<V>>): (map<Bytes, Content<V>>, seq<Answer<V>>) {
    if ops == [] then (m, [])
    else
      var (before, answers) := RunOnMap(m, ops[..|ops| - 1]);
      var (after, answer) := StepOnMap(before, ops[|ops| - 1]);
      (after, answers + [answer])
  }

  lemma {:induction false} DistinctCount(s: seq<Bytes>)
    requires NoDuplicates(s)
    ensures |set k | k in s| == |s|
  {
    if s != [] {
      var n := |s| - 1;
      DistinctCount(s[..n]);
      assert s == s[..n] + [s[n]];
      assert (set k | k in s) == (set k | k in s[..n]) + {s[n]};
    }
  }

  lemma ListRefinesDomain<V>(dir: Directory<V>, files: seq<Bytes>, prefix: Option<Bytes>)
    requires WellFormed(dir) && forall f :: f in files <==> f in dir
    ensures var keys := set k | k in Abstract(dir) && (if prefix.Some? then prefix.value else []) <= k;
            var listed := ListKeys(files, prefix);
            (set k | k in listed) == keys && |listed| == |keys|
  {
    ListIsDomain(dir, files, prefix);
    DistinctCount(ListKeys(files, prefix));
  }

  lemma StepRefinesMap<V(!new)>(dir: Directory<V>, readdir: Directory<V> -> seq<Bytes>, op: Op<V>)
    requires WellFormed(dir) && ListsDirectory(readdir)
    requires SafeKey(op).Some? ==> Plain(SafeKey(op).value)
    ensures var (after, answer) := StepOnFiles(dir, readdir, op);
            WellFormed(after) && StepOnMap(Abstract(dir), op) == (Abstract(after), answer)
  {
    match op
    case Get(k) =>
      if IsSafeStorageKey(k) {
        GetRefinesLookup(dir, k);
      }
    case Set(k, v) =>
      if IsSafeStorageKey(k) {
        SetRefinesUpdate(dir, k, v);
      }
    case Delete(k) =>
      if IsSafeStorageKey(k) {
        DeleteRefinesRemoval(dir, k);
      }
    case List(prefix) => ListRefinesDomain(dir, readdir(dir), prefix);
  }

  /** Over every run from any well-formed directory the store answers and evolves as the map does. */
  lemma {:induction false} StoreRefinesMap<V(!new)>(
      dir: Directory<V>, readdir: Directory<V> -> seq<Bytes>, ops: seq<Op<V>>)
    requires WellFormed(dir) && ListsDirectory(readdir)
    requires forall op :: op in ops && SafeKey(op).Some? ==> Plain(SafeKey(op).value)
    ensures var (after, answers) := RunOnFiles(dir, readdir, ops);
            WellFormed(after) && RunOnMap(Abstract(dir), ops) == (Abstract(after), answers)
  {
    if ops != [] {
      var n := |ops| - 1;
      assert ops[n] in ops && forall op :: op in ops[..n] ==> op in ops;
      StoreRefinesMap(dir, readdir, ops[..n]);
      StepRefinesMap(RunOnFiles(dir, readdir, ops[..n]).0, readdir, ops[n]);
    }
  }

  /** What has just been written is read back, and what has just been deleted is absent. */
  lemma ReadsBack<V>(dir: Directory<V>, readdir: Directory<V> -> seq<Bytes>, key: Bytes, value: V)
    requires IsSafeStorageKey(key)
    ensures StepOnFiles(StepOnFiles(dir, readdir, Set(key, value)).0, readdir, Get(key)).1 == Found(Some(value))
    ensures StepOnFiles(StepOnFiles(dir, readdir, Delete(key)).0, readdir, Get(key)).1 == Found(None)
  {
  }

  predicate Changes<V>(op: Op<V>, key: Bytes) {
    (op.Set? || op.Delete?) && op.key == key
  }

  lemma {:induction false} UnchangedOnMap<V>(m: map<Bytes, Content<V>>, ops: seq<Op<V>>, key: Bytes, c: Content<V>)
    requires key in m && m[key] == c && forall i :: 0 <= i < |ops| ==> !Changes(ops[i], key)
    ensures var after := RunOnMap(m, ops).0;
            key in after && after[key] == c
  {
    if ops != [] {
      UnchangedOnMap(m, ops[..|ops| - 1], key, c);
    }
  }

  lemma {:induction false} RunsConcat<V>(
      dir: Directory<V>, readdir: Directory<V> -> seq<Bytes>, a: seq<Op<V>>, b: seq<Op<V>>)
    ensures RunOnFiles(dir, readdir, a + b).0 == RunOnFiles(RunOnFiles(dir, readdir, a).0, readdir, b).0
    decreases |b|
  {
    if b == [] {
      assert a + b == a;
    } else {
      var n := |b| - 1;
      assert (a + b)[..|a + b| - 1] == a + b[..n];
      RunsConcat(dir, readdir, a, b[..n]);
    }
  }

  /** In every run a read answers with the value last written to its key, whatever happened to other keys since. */
  lemma LastWriteIsRead<V(!new)>(
      dir: Directory<V>, readdir: Directory<V> -> seq<Bytes>, before: seq<Op<V>>, key: Bytes, value: V,
      since: seq<Op<V>>)
    requires WellFormed(dir) && ListsDirectory(readdir) && Plain(key)
    requires forall op :: op in before + since && SafeKey(op).Some? ==> Plain(SafeKey(op).value)
    requires forall i :: 0 <= i < |since| ==> !Changes(since[i], key)
    ensures var after := RunOnFiles(dir, readdir, before + [Set(key, value)] + since).0;
            StepOnFiles(after, readdir, Get(key)).1 == Found(Some(value))
  {
    var reached := RunOnFiles(dir, readdir, before).0;
    StoreRefinesMap(dir, readdir, before);
    StepWritten(dir, readdir, before, key, value);
    RunsConcat(dir, readdir, before + [Set(key, value)], since);
    StaysWritten(reached, readdir, key, value, since);
  }

  lemma StaysWritten<V(!new)>(
      dir: Directory<V>, readdir: Directory<V> -> seq<Bytes>, key: Bytes, value: V, since: seq<Op<V>>)
    requires WellFormed(dir) && ListsDirectory(readdir) && Plain(key)
    requires forall op :: op in since && SafeKey(op).Some? ==> Plain(SafeKey(op).value)
    requires forall i :: 0 <= i < |since| ==> !Changes(since[i], key)
    ensures var after := RunOnFiles(AfterSet(dir, key, value), readdir, since).0;
            StepOnFiles(after, readdir, Get(key)).1 == Found(Some(value))
  {
    SetRefinesUpdate(dir, key, value);
    HeldIsRead(AfterSet(dir, key, value), readdir, key, value, since);
  }

  lemma HeldIsRead<V(!new)>(
      dir: Directory<V>, readdir: Directory<V> -> seq<Bytes>, key: Bytes, value: V, since: seq<Op<V>>)
    requires WellFormed(dir) && ListsDirectory(readdir) && Plain(key)
    requires key in Abstract(dir) && Abstract(dir)[key] == Json(value)
    requires forall op :: op in since && SafeKey(op).Some? ==> Plain(SafeKey(op).value)
    requires forall i :: 0 <= i < |since| ==> !Changes(since[i], key)
    ensures StepOnFiles(RunOnFiles(dir, readdir, since).0, readdir, Get(key)).1 == Found(Some(value))
  {
    StoreRefinesMap(dir, readdir, since);
    UnchangedOnMap(Abstract(dir), since, key, Json(value));
    ReadOfHeld(RunOnFiles(dir, readdir, since).0, readdir, key, value);
  }

  lemma ReadOfHeld<V>(dir: Directory<V>, readdir: Directory<V> -> seq<Bytes>, key: Bytes, value: V)
    requires WellFormed(dir) && Plain(key) && key in Abstract(dir) && Abstract(dir)[key] == Json(value)
    ensures StepOnFiles(dir, readdir, Get(key)).1 == Found(Some(value))
  {
    GetRefinesLookup(dir, key);
  }

  lemma StepWritten<V>(
      dir: Directory<V>, readdir: Directory<V> -> seq<Bytes>, before: seq<Op<V>>, key: Bytes, value: V)
    requires IsSafeStorageKey(key)
    ensures RunOnFiles(dir, readdir, before + [Set(key, value)]).0 ==
            AfterSet(RunOnFiles(dir, readdir, before).0, key, value)
  {
    var ops := before + [Set(key, value)];
    assert ops[..|ops| - 1] == before && ops[|ops| - 1] == Set(key, value);
  }

  // ---------------------------------------------------------------- crashes

  /** Temporary names end in `.tmp` and lie in the plugin directory. */
  predicate IsTemporary(file: Bytes) {
    SLASH !in file && |TMP| <= |file| && file[|file| - |TMP|..] == TMP
  }

  lemma TemporaryIsNotJson(file: Bytes)
    requires IsTemporary(file)
    ensures !IsJson(file)
  {
    var end := file[|file| - |TMP|..];
    assert end[|TMP| - 1] == file[|file| - 1] == 'p' as int;
    assert |JSON| <= |file| ==> file[|file| - |JSON|..][|JSON| - 1] == file[|file| - 1];
  }

  /** A temporary file, torn or complete, is visible to neither `get` nor `list`. */
  lemma TemporaryIsInvisible<V>(dir: Directory<V>, tmp: Bytes, c: Content<V>)
    requires WellFormed(dir) && IsTemporary(tmp)
    ensures WellFormed(dir[tmp := c]) && Abstract(dir[tmp := c]) == Abstract(dir)
    ensures WellFormed(dir - {tmp}) && Abstract(dir - {tmp}) == Abstract(dir)
  {
    TemporaryIsWellFormed(dir, tmp, c);
    forall k {
      TemporaryIsNoKey(dir, tmp, c, k);
    }
    SameMap(Abstract(dir), Abstract(dir[tmp := c]));
    SameMap(Abstract(dir), Abstract(dir - {tmp}));
  }

  lemma TemporaryIsWellFormed<V>(dir: Directory<V>, tmp: Bytes, c: Content<V>)
    requires WellFormed(dir) && IsTemporary(tmp)
    ensures WellFormed(dir[tmp := c]) && WellFormed(dir - {tmp})
  {
    TemporaryIsNotJson(tmp);
  }

  lemma TemporaryStoresNothing<V>(dir: Directory<V>, tmp: Bytes, c: Content<V>, key: Bytes)
    requires IsTemporary(tmp) && Plain(key)
    ensures Stored(dir[tmp := c], key) == Stored(dir, key) == Stored(dir - {tmp}, key)
  {
    TemporaryIsNotJson(tmp);
    FileNames(key);
  }

  lemma TemporaryIsNoKey<V>(dir: Directory<V>, tmp: Bytes, c: Content<V>, key: Bytes)
    requires WellFormed(dir) && IsTemporary(tmp)
    requires WellFormed(dir[tmp := c]) && WellFormed(dir - {tmp})
    ensures key in Abstract(dir[tmp := c]) <==> key in Abstract(dir)
    ensures key in Abstract(dir - {tmp}) <==> key in Abstract(dir)
    ensures key in Abstract(dir) ==> Abstract(dir[tmp := c])[key] == Abstract(dir)[key] == Abstract(dir - {tmp})[key]
  {
    InAbstract(dir, key);
    InAbstract(dir[tmp := c], key);
    InAbstract(dir - {tmp}, key);
    if Plain(key) {
      TemporaryStoresNothing(dir, tmp, c, key);
    }
  }

  lemma SameMap<K, V>(m: map<K, V>, n: map<K, V>)
    requires forall k :: k in n <==> k in m
    requires forall k :: k in m ==> n[k] == m[k]
    ensures n == m
  {
  }

  /** Every state the directory can be in while a file is written by way of a temporary one. */
  ghost predicate WriteState<V>(dir: Directory<V>, file: Bytes, value: V, tmp: Bytes, d: Directory<V>) {
    || d == dir
    || d == dir[tmp := Torn]
    || d == dir[tmp := Json(value)]
    || d == dir - {tmp}
    || d == (dir - {tmp})[file := Json(value)]
  }

  /** Every state the directory can be in while `set` runs, and when it ends, with or without success. */
  ghost predicate SetState<V>(dir: Directory<V>, key: Bytes, value: V, tmp: Bytes, d: Directory<V>) {
    WriteState(dir, EncodedFile(key), value, tmp, d) || d == AfterSet(dir - {tmp}, key, value)
  }

  /** The map is the complete old one or the complete new one. */
  ghost predicate OldOrNew<V>(dir: Directory<V>, key: Bytes, value: V, d: Directory<V>)
    requires WellFormed(dir)
  {
    WellFormed(d) && (Abstract(d) == Abstract(dir) || Abstract(d) == Abstract(dir)[key := Json(value)])
  }

  /** Stopping `set` after any file-system step leaves the complete old or the complete new map. */
  lemma SetIsCrashAtomic<V>(dir: Directory<V>, key: Bytes, value: V, tmp: Bytes, d: Directory<V>)
    requires WellFormed(dir) && Plain(key) && IsTemporary(tmp)
    requires SetState(dir, key, value, tmp, d)
    ensures OldOrNew(dir, key, value, d)
  {
    TemporaryIsInvisible(dir, tmp, Torn);
    if d == dir[tmp := Json(value)] {
      TemporaryIsInvisible(dir, tmp, Json(value));
    } else if d == (dir - {tmp})[EncodedFile(key) := Json(value)] {
      EncodedShadowsLegacy(dir - {tmp}, key, value);
    } else if d == AfterSet(dir - {tmp}, key, value) {
      SetRefinesUpdate(dir - {tmp}, key, value);
    }
  }

  // ---------------------------------------------------------------- runs with crashes

  /** A change of the store; it may have stopped anywhere, and `completed` says that it was acknowledged. */
  datatype Change<V> =
    | Written(key: Bytes, value: V, tmp: Bytes, completed: bool)
    | Deleted(key: Bytes, completed: bool)

  /** What a change may make of a directory. */
  ghost predicate Makes<V>(dir: Directory<V>, change: Change<V>, after: Directory<V>) {
    match change
    case Written(key, value, tmp, completed) =>
      && Plain(key) && IsTemporary(tmp)
      && if completed then after == AfterSet(dir - {tmp}, key, value) else SetState(dir, key, value, tmp, after)
    case Deleted(key, completed) =>
      && Plain(key)
      && if completed then after == AfterDelete(dir, key)
         else DeleteState(dir, key, after) && (after == dir - {EncodedFile(key)} ==> !Uncovers(dir, key))
  }

  /** Every state the directory can be in while `delete` runs, and when it ends, with or without success. */
  ghost predicate DeleteState<V>(dir: Directory<V>, key: Bytes, d: Directory<V>) {
    d == dir || d == dir - {EncodedFile(key)} || d == AfterDelete(dir, key)
  }

  /** Behind the encoded file stands a legacy one with something else in it. */
  predicate Uncovers<V(==)>(dir: Directory<V>, key: Bytes) {
    EncodedFile(key) in dir && LegacyFile(key) in dir && dir[EncodedFile(key)] != dir[LegacyFile(key)]
  }

  /** The directories between one change and the next. */
  ghost predicate History<V>(dirs: seq<Directory<V>>, changes: seq<Change<V>>) {
    |dirs| == |changes| + 1 && forall i :: 0 <= i < |changes| ==> Makes(dirs[i], changes[i], dirs[i + 1])
  }

  /** The map after the changes that took effect. */
  function MapAfter<V>(m: map<Bytes, Content<V>>, changes: seq<Change<V>>, took: seq<bool>): map<Bytes, Content<V>>
    requires |took| == |changes|
  {
    if changes == [] then m
    else
      var n := |changes| - 1;
      var before := MapAfter(m, changes[..n], took[..n]);
      if !took[n] then before
      else
        match changes[n]
        case Written(key, value, _, _) => before[key := Json(value)]
        case Deleted(key, _) => before - {key}
  }

  /** Every acknowledged change took effect. */
  ghost predicate KeepsAcknowledged<V>(changes: seq<Change<V>>, took: seq<bool>) {
    |took| == |changes| && forall i :: 0 <= i < |changes| ==> (changes[i].completed ==> took[i])
  }

  lemma ChangeTakesOrNot<V>(dir: Directory<V>, change: Change<V>, after: Directory<V>) returns (took: bool)
    requires WellFormed(dir) && Makes(dir, change, after)
    ensures WellFormed(after)
    ensures change.completed ==> took
    ensures Abstract(after) ==
      if !took then Abstract(dir)
      else match change
           case Written(key, value, _, _) => Abstract(dir)[key := Json(value)]
           case Deleted(key, _) => Abstract(dir) - {key}
  {
    match change
    case Written(key, value, tmp, completed) =>
      if completed {
        TemporaryIsInvisible(dir, tmp, Torn);
        SetRefinesUpdate(dir - {tmp}, key, value);
        took := true;
      } else {
        SetIsCrashAtomic(dir, key, value, tmp, after);
        took := Abstract(after) != Abstract(dir);
      }
    case Deleted(key, completed) =>
      DeleteRefinesRemoval(dir, key);
      DeleteIsCrashAtomicIff(dir, key);
      took := completed || Abstract(after) != Abstract(dir);
  }

  /**
   * Over every run in which any change may stop at any file-system step, only not a delete between its two unlinks
   * where that uncovers an older value, the store is the map to which all acknowledged changes, and some of the
   * interrupted ones, have been applied whole and in order.
   */
  lemma {:induction false} InterruptedRunsRefineMap<V>(dirs: seq<Directory<V>>, changes: seq<Change<V>>)
    returns (took: seq<bool>)
    requires History(dirs, changes) && WellFormed(dirs[0])
    ensures KeepsAcknowledged(changes, took) && WellFormed(dirs[|changes|])
    ensures Abstract(dirs[|changes|]) == MapAfter(Abstract(dirs[0]), changes, took)
    decreases |changes|
  {
    if changes == [] {
      took := [];
    } else {
      var n := |changes| - 1;
      HistorySoFar(dirs, changes);
      var earlier := InterruptedRunsRefineMap(dirs[..n + 1], changes[..n]);
      var last := ChangeTakesOrNot(dirs[n], changes[n], dirs[n + 1]);
      took := earlier + [last];
      OneMoreChange(Abstract(dirs[0]), changes, earlier, last);
    }
  }

  lemma HistorySoFar<V>(dirs: seq<Directory<V>>, changes: seq<Change<V>>)
    requires History(dirs, changes) && changes != []
    ensures var n := |changes| - 1;
            && History(dirs[..n + 1], changes[..n])
            && dirs[..n + 1][n] == dirs[n] && Makes(dirs[n], changes[n], dirs[n + 1])
  {
  }

  lemma OneMoreChange<V>(m: map<Bytes, Content<V>>, changes: seq<Change<V>>, earlier: seq<bool>, last: bool)
    requires changes != [] && KeepsAcknowledged(changes[..|changes| - 1], earlier)
    requires changes[|changes| - 1].completed ==> last
    ensures KeepsAcknowledged(changes, earlier + [last])
    ensures
      var before := MapAfter(m, changes[..|changes| - 1], earlier);
      MapAfter(m, changes, earlier + [last]) ==
        if !last then before
        else match changes[|changes| - 1]
             case Written(key, value, _, _) => before[key := Json(value)]
             case Deleted(key, _) => before - {key}
  {
    assert (earlier + [last])[..|changes| - 1] == earlier;
  }

  // ---------------------------------------------------------------- deleting

  /**
   * `delete` unlinks the encoded file first. Stopping in between shows the old or the new map if and
   * only if there was no legacy file behind it with something else in it.
   */
  lemma DeleteIsCrashAtomicIff<V>(dir: Directory<V>, key: Bytes)
    requires WellFormed(dir) && Plain(key)
    ensures var between := dir - {EncodedFile(key)};
            && WellFormed(between)
            && (Abstract(between) == Abstract(dir) || Abstract(between) == Abstract(dir) - {key} <==>
                !Uncovers(dir, key))
  {
    var left := if LegacyFile(key) in dir then Some(dir[LegacyFile(key)]) else None;
    HalfDeleted(dir, key, left);
    InAbstract(dir, key);
    UpdateIsOldOrGone(Abstract(dir), key, left);
  }

  /** With the encoded file gone, the key holds what the legacy file holds. */
  lemma HalfDeleted<V>(dir: Directory<V>, key: Bytes, left: Option<Content<V>>)
    requires WellFormed(dir) && Plain(key)
    requires left == if LegacyFile(key) in dir then Some(dir[LegacyFile(key)]) else None
    ensures var between := dir - {EncodedFile(key)};
            && WellFormed(between)
            && Abstract(between) == if left.Some? then Abstract(dir)[key := left.value] else Abstract(dir) - {key}
  {
    var between := dir - {EncodedFile(key)};
    LegacyDiffersFromEncoded(key);
    assert Stored(between, key) == left;
    forall k | Plain(k) { DeleteStores(dir, key, k); }
    UpdatesMap(dir, between, key, left);
  }

  lemma UpdateIsOldOrGone<K, V>(m: map<K, V>, key: K, c: Option<V>)
    ensures var n := if c.Some? then m[key := c.value] else m - {key};
            n == m || n == m - {key} <==> !(c.Some? && (key in m ==> m[key] != c.value))
  {
    if c.Some? {
      var n := m[key := c.value];
      assert key in n && n[key] == c.value;
    }
  }

  // ---------------------------------------------------------------- keys that are not plain

  ghost predicate ShareFile(key: Bytes, other: Bytes) {
    || LegacyFile(key) == LegacyFile(other)
    || LegacyFile(key) == EncodedFile(other)
    || EncodedFile(key) == LegacyFile(other)
  }

  /** Writing one key leaves another alone in every directory if and only if they share no file. */
  lemma SetIsolationIff<V(!new)>(key: Bytes, other: Bytes, value: V)
    requires key != other
    ensures (forall dir: Directory<V> :: Stored(AfterSet(dir, key, value), other) == Stored(dir, other))
       <==> !ShareFile(key, other)
  {
    if ShareFile(key, other) {
      var dir := SharedFileShows(key, other, value);
    } else {
      forall dir: Directory<V>
        ensures Stored(AfterSet(dir, key, value), other) == Stored(dir, other)
      {
        UnsharedFilesStay(dir, key, other, value);
      }
    }
  }

  lemma UnsharedFilesStay<V>(dir: Directory<V>, key: Bytes, other: Bytes, value: V)
    requires key != other && !ShareFile(key, other)
    ensures Stored(AfterSet(dir, key, value), other) == Stored(dir, other)
  {
    EncodedFilesDiffer(key, other);
  }

  lemma EncodedFilesDiffer(key: Bytes, other: Bytes)
    requires key != other
    ensures EncodedFile(key) != EncodedFile(other)
  {
    FileNames(key);
    FileNames(other);
  }

  /** A directory in which writing one of two keys that share a file changes the other. */
  lemma SharedFileShows<V>(key: Bytes, other: Bytes, value: V) returns (dir: Directory<V>)
    requires key != other && ShareFile(key, other)
    ensures Stored(AfterSet(dir, key, value), other) != Stored(dir, other)
  {
    EncodedFilesDiffer(key, other);
    LegacyDiffersFromEncoded(key);
    LegacyDiffersFromEncoded(other);
    if EncodedFile(key) == LegacyFile(other) {
      dir := map[];
    } else {
      dir := map[LegacyFile(key) := Torn];
    }
  }

  /** A key that looks like an encoded name shares the file of the key it encodes. */
  lemma EncodedLookingKeyAliases(key: Bytes)
    ensures ShareFile(key, EncodeStorageKey(key))
  {
    EncodedFileIsFlat(key);
  }

  /** Every encoded name is itself a safe key. */
  lemma EncodedNameIsSafe(key: Bytes)
    ensures IsSafeStorageKey(EncodeStorageKey(key))
  {
    var name := EncodeStorageKey(key);
    EncodedKeyShape(key);
    assert name[0] == 'k' as int;
    forall i | 0 <= i < |name|
      ensures 0x20 <= name[i] && name[i] != SLASH && name[i] != BACKSLASH && name[i] != DOT
    {
      if i >= |ENCODED_KEY_PREFIX| {
        assert name[i] == UrlDigits(key)[i - |ENCODED_KEY_PREFIX|];
      }
    }
    SplitWhole(name, {SLASH, BACKSLASH});
  }

  /** Writing the safe key that reads like the name of another key deletes the other's value. */
  lemma EncodedLookingKeyDeletes<V>(key: Bytes, value: V)
    ensures IsSafeStorageKey(EncodeStorageKey(key))
    ensures Stored(map[EncodedFile(key) := Json(value)], key) == Some(Json(value))
    ensures Stored(AfterSet(map[EncodedFile(key) := Json(value)], EncodeStorageKey(key), value), key) == None
  {
    var alias := EncodeStorageKey(key);
    EncodedNameIsSafe(key);
    EncodedFileIsFlat(key);
    EncodedKeyShape(key);
    EncodedKeyShape(alias);
    EncodedFilesDiffer(key, alias);
    LegacyIsShort(key);
    assert |EncodedFile(alias)| > |key + JSON|;
    assert AfterSet(map[EncodedFile(key) := Json(value)], alias, value) == map[EncodedFile(alias) := Json(value)];
  }

  lemma LegacyIsShort(key: Bytes)
    ensures |LegacyFile(key)| <= |key + JSON|
  {
    JoinSplit(key + JSON, SLASH);
    RealSegmentsShorten(Split(key + JSON, {SLASH}));
  }

  /** The key `a` is plain. */
  lemma PlainKeyExists()
    ensures Plain(A)
  {
    DotSegmentKeysAreSafe();
    DotSegmentNormalizes();
  }

  /** A well-formed directory in which half a `delete` uncovers an older value: neither the old nor the new map. */
  lemma HalfDeletedUncovers<V>(older: V, newer: V)
    requires older != newer
    ensures var dir := map[EncodedFile(A) := Json(newer), LegacyFile(A) := Json(older)];
            var between := dir - {EncodedFile(A)};
            && WellFormed(dir) && WellFormed(between)
            && Stored(between, A) == Some(Json(older)) && Stored(dir, A) == Some(Json(newer))
            && Abstract(between) != Abstract(dir) && Abstract(between) != Abstract(dir) - {A}
  {
    var dir := map[EncodedFile(A) := Json(newer), LegacyFile(A) := Json(older)];
    PlainKeyExists();
    LegacyDiffersFromEncoded(A);
    FileNames(A);
    EncodedFileIsFlat(A);
    DeleteIsCrashAtomicIff(dir, A);
  }

  const A: Bytes := ['a' as int]
  const DOT_SLASH_A: Bytes := [DOT, SLASH, 'a' as int]

  /** The safe keys `./a` and `a` share the legacy file `a.json`: writing the first deletes the second's value. */
  lemma DotSegmentAliases<V>(value: V)
    ensures IsSafeStorageKey(DOT_SLASH_A) && IsSafeStorageKey(A)
    ensures Stored(map[A + JSON := Json(value)], A) == Some(Json(value))
    ensures Stored(AfterSet(map[A + JSON := Json(value)], DOT_SLASH_A, value), A) == None
  {
    DotSegmentKeysAreSafe();
    DotSegmentNormalizes();
    LegacyDiffersFromEncoded(A);
    if EncodedFile(A) == EncodedFile(DOT_SLASH_A) {
      FileNames(A);
      FileNames(DOT_SLASH_A);
    }
  }

  lemma DotSegmentKeysAreSafe()
    ensures IsSafeStorageKey(DOT_SLASH_A) && IsSafeStorageKey(A)
  {
    assert DOT_SLASH_A == [DOT, SLASH] + A;
    SplitWhole(A, {SLASH, BACKSLASH});
    SplitDotSlash(A, {SLASH, BACKSLASH});
  }

  lemma DotSegmentNormalizes()
    ensures LegacyFile(DOT_SLASH_A) == A + JSON == LegacyFile(A)
  {
    var file := A + JSON;
    assert DOT_SLASH_A + JSON == [DOT, SLASH] + file;
    SplitWhole(file, {SLASH});
    FlatNameIsNormal(file);
    SplitDotSlash(file, {SLASH});
    RealSegmentsAll([file]);
    assert [[DOT], file][1..] == [file];
  }

  lemma SplitDotSlash(rest: Bytes, separators: set<byte>)
    requires SLASH in separators && DOT !in separators
    ensures Split([DOT, SLASH] + rest, separators) == [[DOT]] + Split(rest, separators)
  {
    var s := [DOT, SLASH] + rest;
    assert s[1..] == [SLASH] + rest && s[1..][1..] == rest;
    assert Split(s[1..], separators) == [[]] + Split(rest, separators);
    assert [s[0]] + [] == [DOT];
  }

  // ---------------------------------------------------------------- the service

  lemma SetFilesDiffer(key: Bytes, tmp: Bytes)
    requires IsTemporary(tmp)
    ensures EncodedFile(key) != tmp
  {
    TemporaryIsNotJson(tmp);
    FileNames(key);
  }

  lemma UnlinkedLegacy<V>(dir: Directory<V>, key: Bytes, value: V)
    ensures LegacyFile(key) != EncodedFile(key)
    ensures dir[EncodedFile(key) := Json(value)] - {LegacyFile(key)} == AfterSet(dir, key, value)
    ensures LegacyFile(key) !in dir ==> dir[EncodedFile(key) := Json(value)] == AfterSet(dir, key, value)
  {
    LegacyDiffersFromEncoded(key);
    UpdateThenRemove(dir, EncodedFile(key), LegacyFile(key), Json(value));
  }

  lemma UpdateThenRemove<K, V>(m: map<K, V>, kept: K, removed: K, v: V)
    requires kept != removed
    ensures m[kept := v] - {removed} == (m - {removed})[kept := v]
    ensures removed !in m ==> m[kept := v] == (m - {removed})[kept := v]
  {
  }

  class PluginStorage<V> {
    var files: Directory<V>
    /** Every state the directory has been in, oldest first. */
    ghost var history: seq<Directory<V>>
    /** How many file-system calls have failed. */
    ghost var failures: nat

    constructor (files: Directory<V>)
      ensures this.files == files && history == [files] && failures == 0
    {
      this.files := files;
      history, failures := [files], 0;
    }

    /** `fs.writeFileSync`: the file exists torn before it is complete, and may stay torn. */
    method WriteFile(file: Bytes, value: V) returns (ok: bool)
      modifies this
      ensures ok ==> files == old(files)[file := Json(value)]
      ensures !ok ==> files == old(files) || files == old(files)[file := Torn]
      ensures history == old(history) + [old(files)[file := Torn], files] || history == old(history) + [files]
      ensures failures == old(failures) + if ok then 0 else 1
    {
      var fails: bool := *;
      if fails {
        history, failures := history + [files], failures + 1;
        return false;
      }
      files := files[file := Torn];
      history := history + [files];
      ok := *;
      if ok {
        files := files[file := Json(value)];
      } else {
        failures := failures + 1;
      }
      history := history + [files];
    }

    /** `fs.renameSync`, atomic. */
    method Rename(from: Bytes, to: Bytes) returns (ok: bool)
      requires from in files && from != to
      modifies this
      ensures files == if ok then (old(files) - {from})[to := old(files)[from]] else old(files)
      ensures history == old(history) + [files]
      ensures failures == old(failures) + if ok then 0 else 1
    {
      ok := *;
      if ok {
        files := (files - {from})[to := files[from]];
      } else {
        failures := failures + 1;
      }
      history := history + [files];
    }

    /** `fs.unlinkSync` or `fs.rmSync`. */
    method Unlink(file: Bytes) returns (ok: bool)
      modifies this
      ensures files == if ok then old(files) - {file} else old(files)
      ensures history == old(history) + [files]
      ensures failures == old(failures) + if ok then 0 else 1
    {
      ok := *;
      if ok {
        files := files - {file};
      } else {
        failures := failures + 1;
      }
      history := history + [files];
    }

    method AtomicWriteFile(file: Bytes, value: V, tmp: Bytes) returns (ok: bool)
      requires file != tmp
      modifies this
      ensures ok ==> files == (old(files) - {tmp})[file := Json(value)]
      ensures ok <==> failures == old(failures)
      ensures failures <= old(failures) + 1 ==> tmp !in files
      ensures failures >= old(failures)
      ensures WriteState(old(files), file, value, tmp, files)
      ensures |old(history)| <= |history| && history[..|old(history)|] == old(history)
      ensures forall i :: |old(history)| <= i < |history| ==> WriteState(old(files), file, value, tmp, history[i])
    {
      ok := WriteFile(tmp, value);
      if ok {
        ok := Rename(tmp, file);
      }
      if !ok {
        var _ := Unlink(tmp);
      }
    }

    /** The encoded file decides if it exists, else the legacy one; text that does not parse reads as absent. */
    method Get(key: Bytes) returns (value: Option<V>)
      ensures !IsSafeStorageKey(key) ==> value == None
      ensures IsSafeStorageKey(key) && EncodedFile(key) in files ==>
                value == match files[EncodedFile(key)] case Json(v) => Some(v) case Torn => None
      ensures IsSafeStorageKey(key) && EncodedFile(key) !in files && LegacyFile(key) in files ==>
                value == match files[LegacyFile(key)] case Json(v) => Some(v) case Torn => None
      ensures EncodedFile(key) !in files && LegacyFile(key) !in files ==> value == None
      ensures WellFormed(files) && Plain(key) ==>
                value == if key !in Abstract(files) then None
                         else match Abstract(files)[key] case Json(v) => Some(v) case Torn => None
    {
      ResolversAcceptSafeKeys(key);
      if WellFormed(files) && Plain(key) {
        GetRefinesLookup(files, key);
      }
      var filePath := ResolveKeyPath(key);
      if filePath.None? {
        return None;
      }
      var legacyPath := ResolveLegacyKeyPath(key);
      LegacyDiffersFromEncoded(key);
      var candidates := [filePath.value];
      if legacyPath.Some? && legacyPath != filePath {
        candidates := [filePath.value, legacyPath.value];
      }
      assert candidates[0] == EncodedFile(key) && candidates[1] == LegacyFile(key);
      value := ReadFirst(candidates);
    }

    /** The parsed text of the first file that exists; text that does not parse reads as absent. */
    method ReadFirst(candidates: seq<Bytes>) returns (value: Option<V>)
      ensures (forall i :: 0 <= i < |candidates| ==> candidates[i] !in files) ==> value == None
      ensures forall i :: 0 <= i < |candidates| && candidates[i] in files && AllMissing(candidates[..i]) ==>
                value == match files[candidates[i]] case Json(v) => Some(v) case Torn => None
    {
      for i := 0 to |candidates|
        invariant AllMissing(candidates[..i])
      {
        if candidates[i] in files {
          return Parsed(Some(files[candidates[i]]));
        }
      }
      return None;
    }

    ghost predicate AllMissing(candidates: seq<Bytes>)
      reads this
    {
      forall i :: 0 <= i < |candidates| ==> candidates[i] !in files
    }

    method Set(key: Bytes, value: V, tmp: Bytes) returns (ok: bool)
      requires IsTemporary(tmp)
      modifies this
      ensures !IsSafeStorageKey(key) ==> files == old(files) && history == old(history)
      ensures ok <==> IsSafeStorageKey(key) && failures == old(failures)
      ensures ok ==> files == AfterSet(old(files) - {tmp}, key, value)
      ensures |old(history)| <= |history| && history[..|old(history)|] == old(history)
      ensures forall i :: |old(history)| <= i < |history| ==> SetState(old(files), key, value, tmp, history[i])
      ensures SetState(old(files), key, value, tmp, files)
      ensures WellFormed(old(files)) && Plain(key) ==>
                && OldOrNew(old(files), key, value, files)
                && (ok ==> Abstract(files) == Abstract(old(files))[key := Json(value)])
                && forall i :: |old(history)| <= i < |history| ==> OldOrNew(old(files), key, value, history[i])
    {
      ok := SetSteps(key, value, tmp);
      if WellFormed(old(files)) && Plain(key) {
        SetIsCrashAtomic(old(files), key, value, tmp, files);
        if ok {
          TemporaryIsInvisible(old(files), tmp, Torn);
          SetRefinesUpdate(old(files) - {tmp}, key, value);
        }
        forall i | |old(history)| <= i < |history|
          ensures OldOrNew(old(files), key, value, history[i])
        {
          SetIsCrashAtomic(old(files), key, value, tmp, history[i]);
        }
      }
    }

    /** The file-system calls of `set`, in order. */
    method SetSteps(key: Bytes, value: V, tmp: Bytes) returns (ok: bool)
      requires IsTemporary(tmp)
      modifies this
      ensures !IsSafeStorageKey(key) ==> files == old(files) && history == old(history)
      ensures ok <==> IsSafeStorageKey(key) && failures == old(failures)
      ensures ok ==> files == AfterSet(old(files) - {tmp}, key, value)
      ensures |old(history)| <= |history| && history[..|old(history)|] == old(history)
      ensures forall i :: |old(history)| <= i < |history| ==> SetState(old(files), key, value, tmp, history[i])
      ensures SetState(old(files), key, value, tmp, files)
    {
      ResolversAcceptSafeKeys(key);
      var filePath := ResolveKeyPath(key);
      if filePath.None? {
        return false;
      }
      SetFilesDiffer(key, tmp);
      ok := AtomicWriteFile(filePath.value, value, tmp);
      if !ok {
        return;
      }
      var chmods: bool := *; // fs.chmodSync may throw; the directory stays as it is
      if !chmods {
        failures := failures + 1;
        return false;
      }
      var legacyPath := ResolveLegacyKeyPath(key);
      if legacyPath.Some? && legacyPath != filePath && legacyPath.value in files {
        ok := Unlink(legacyPath.value);
      }
      UnlinkedLegacy(old(files) - {tmp}, key, value);
    }

    method Delete(key: Bytes) returns (ok: bool)
      modifies this
      ensures !IsSafeStorageKey(key) ==> files == old(files) && history == old(history)
      ensures ok <==> IsSafeStorageKey(key) && failures == old(failures)
      ensures ok ==> files == AfterDelete(old(files), key)
      ensures |old(history)| <= |history| && history[..|old(history)|] == old(history)
      ensures forall i :: |old(history)| <= i < |history| ==> DeleteState(old(files), key, history[i])
      ensures WellFormed(old(files)) && Plain(key) && ok ==>
                WellFormed(files) && Abstract(files) == Abstract(old(files)) - {key}
      ensures !ok ==> files == old(files) || files == old(files) - {EncodedFile(key)}
    {
      ok := DeleteSteps(key);
      if WellFormed(old(files)) && Plain(key) {
        DeleteRefinesRemoval(old(files), key);
      }
    }

    /** The file-system calls of `delete`, in order. */
    method DeleteSteps(key: Bytes) returns (ok: bool)
      modifies this
      ensures !IsSafeStorageKey(key) ==> files == old(files) && history == old(history)
      ensures ok <==> IsSafeStorageKey(key) && failures == old(failures)
      ensures ok ==> files == AfterDelete(old(files), key)
      ensures |old(history)| <= |history| && history[..|old(history)|] == old(history)
      ensures forall i :: |old(history)| <= i < |history| ==> DeleteState(old(files), key, history[i])
      ensures !ok ==> files == old(files) || files == old(files) - {EncodedFile(key)}
    {
      ResolversAcceptSafeKeys(key);
      LegacyDiffersFromEncoded(key);
      var filePath := ResolveKeyPath(key);
      if filePath.None? {
        return false;
      }
      var legacyPath := ResolveLegacyKeyPath(key);
      if filePath.value in files {
        ok := Unlink(filePath.value);
        if !ok { return; }
      }
      ok := true;
      if legacyPath.Some? && legacyPath != filePath && legacyPath.value in files {
        ok := Unlink(legacyPath.value);
      }
    }
  }
}
