/**
 * Per-session plugin configuration (src/core/plugins/plugin-activation.ts:20-53) and the sparse override
 * that the dashboard sends for it (dashboard/src/pages/Plugins.tsx:61-79 and 388-409,
 * dashboard/src/utils/pluginConfigForm.ts:4-26).
 */
module ConfigMerge {
  import opened Wrappers

  /** A JavaScript value; a missing key reads as `Undefined`, and a key may also hold `Undefined`. */
  datatype Value =
    | Undefined
    | Null
    | Bool(bool)
    | Num(real)
    | Str(string)
    | Arr(items: seq<Value>)
    | Obj(fields: map<string, Value>)

  type Config = v: Value | v.Obj? witness Obj(map[])

  function Get(c: Value, key: string): Value {
    if c.Obj? && key in c.fields then c.fields[key] else Undefined
  }

  // ---------------------------------------------------------------- the merge

  /** What one value becomes under another. */
  function Merge(base: Value, override: Value): (merged: Value)
    ensures base.Obj? && override.Obj? ==> merged.Obj?
    decreases override
  {
    if base.Obj? && override.Obj? then
      Obj(map key | key in base.fields.Keys + override.fields.Keys ::
        if key in override.fields then Merge(Get(base, key), override.fields[key]) else base.fields[key])
    else override
  }

  /** `fields` is `base` with the override's keys outside `todo` merged in. */
  ghost predicate MergedUpTo(base: Config, override: Config, todo: set<string>, fields: map<string, Value>) {
    && fields.Keys == base.fields.Keys + (override.fields.Keys - todo)
    && (forall key :: key in override.fields.Keys - todo ==> fields[key] == Merge(Get(base, key), override.fields[key]))
    && (forall key :: key in base.fields.Keys && (key !in override.fields || key in todo) ==>
          fields[key] == base.fields[key])
  }

  lemma MergeOne(
      base: Config, override: Config, todo: set<string>, fields: map<string, Value>, key: string, value: Value)
    requires MergedUpTo(base, override, todo, fields) && key in todo && todo <= override.fields.Keys
    requires value == Merge(Get(base, key), override.fields[key])
    ensures MergedUpTo(base, override, todo - {key}, fields[key := value])
  {
  }

  lemma MergedAll(base: Config, override: Config, fields: map<string, Value>)
    requires MergedUpTo(base, override, {}, fields)
    ensures Obj(fields) == Merge(base, override)
  {
    var merged := Merge(base, override).fields;
    assert fields.Keys == merged.Keys;
    assert forall key :: key in fields ==> fields[key] == merged[key];
    assert fields == merged;
  }

  /** `deepMerge`, its keys taken in any order. */
  method DeepMerge(base: Config, override: Config) returns (out: Config)
    ensures out == Merge(base, override)
    decreases override
  {
    var fields := base.fields;
    var todo := override.fields.Keys;
    while todo != {}
      invariant todo <= override.fields.Keys
      invariant MergedUpTo(base, override, todo, fields)
      decreases |todo|
    {
      var key :| key in todo;
      var baseValue, value := Get(Obj(fields), key), override.fields[key];
      assert baseValue == Get(base, key);
      if baseValue.Obj? && value.Obj? {
        value := DeepMerge(baseValue, value);
      }
      MergeOne(base, override, todo, fields, key, value);
      fields := fields[key := value];
      todo := todo - {key};
    }
    MergedAll(base, override, fields);
    return Obj(fields);
  }

  /** `resolvePluginConfig`; `overrides` is the per-session configuration, if there is any. */
  method ResolvePluginConfig(
    base: Config, overrides: Option<map<string, Config>>, sessionId: Option<string>, sessionScoped: bool
  ) returns (config: Config)
    ensures config ==
      if sessionScoped && sessionId.Some? && overrides.Some? && sessionId.value in overrides.value
      then Merge(base, overrides.value[sessionId.value])
      else base
  {
    if !sessionScoped || sessionId.None? || overrides.None? {
      return base;
    }
    if sessionId.value !in overrides.value {
      return base;
    }
    config := DeepMerge(base, overrides.value[sessionId.value]);
  }

  // ---------------------------------------------------------------- lookup by path

  /** What stands at a path, if anything does. */
  function Lookup(v: Value, path: seq<string>): Option<Value> {
    if path == [] then Some(v)
    else if v.Obj? && path[0] in v.fields then Lookup(v.fields[path[0]], path[1..])
    else None
  }

  /** Some proper prefix of the path ends at a value that is not an object. */
  ghost predicate BelowLeaf(v: Value, path: seq<string>) {
    exists n :: 0 <= n < |path| && var at := Lookup(v, path[..n]); at.Some? && !at.value.Obj?
  }

  lemma BelowLeafStep(v: Value, path: seq<string>)
    requires path != []
    ensures BelowLeaf(v, path) <==>
      !v.Obj? || (path[0] in v.fields && BelowLeaf(v.fields[path[0]], path[1..]))
  {
    if !v.Obj? {
      assert Lookup(v, path[..0]) == Some(v);
    } else if path[0] in v.fields {
      var inner := v.fields[path[0]];
      forall n | 0 <= n < |path| - 1 ensures Lookup(v, path[..n + 1]) == Lookup(inner, path[1..][..n]) {
        assert path[..n + 1][1..] == path[1..][..n];
      }
      if BelowLeaf(inner, path[1..]) {
        var n :| 0 <= n < |path| - 1 && var at := Lookup(inner, path[1..][..n]); at.Some? && !at.value.Obj?;
        assert Lookup(v, path[..n + 1]) == Lookup(inner, path[1..][..n]);
      }
      if BelowLeaf(v, path) {
        var n :| 0 <= n < |path| && var at := Lookup(v, path[..n]); at.Some? && !at.value.Obj?;
        assert n > 0;
        assert Lookup(v, path[..(n - 1) + 1]) == Lookup(inner, path[1..][..n - 1]);
      }
    } else {
      assert forall n :: 0 < n < |path| ==> path[..n][0] == path[0];
    }
  }

  /**
   * The merge law: at every path the merged configuration has the override's value where it sets one (two
   * objects merged), nothing below a leaf of the override, and the base's value everywhere else.
   */
  lemma {:induction false} MergeLaw(base: Value, override: Value, path: seq<string>)
    ensures Lookup(Merge(base, override), path) ==
      var mine, theirs := Lookup(override, path), Lookup(base, path);
      if mine.Some? then Some(if theirs.Some? then Merge(theirs.value, mine.value) else mine.value)
      else if BelowLeaf(override, path) then None
      else theirs
    decreases |path|
  {
    if path != [] {
      BelowLeafStep(override, path);
      if override.Obj? && path[0] in override.fields {
        var inner := Get(base, path[0]);
        MergeLaw(inner, override.fields[path[0]], path[1..]);
        if !(base.Obj? && path[0] in base.fields) {
          MergeOverUndefined(override.fields[path[0]]);
        }
      }
    }
  }

  /** What the override sets stands, at every path, unless it is an object over an object. */
  lemma OverrideStands(base: Value, override: Value, path: seq<string>, v: Value)
    requires Lookup(override, path) == Some(v)
    requires !v.Obj? || Lookup(base, path).None? || !Lookup(base, path).value.Obj?
    ensures Lookup(Merge(base, override), path) == Some(v)
  {
    MergeLaw(base, override, path);
  }

  /** An object over an object has the keys of both. */
  lemma ObjectsUnite(base: Value, override: Value, path: seq<string>, mine: Config, theirs: Config)
    requires Lookup(override, path) == Some(mine) && Lookup(base, path) == Some(theirs)
    ensures var merged := Lookup(Merge(base, override), path);
            merged.Some? && merged.value.Obj? && merged.value.fields.Keys == mine.fields.Keys + theirs.fields.Keys
  {
    MergeLaw(base, override, path);
  }

  /** What the override says nothing about is the base's. */
  lemma BaseShines(base: Value, override: Value, path: seq<string>)
    requires Lookup(override, path).None?
    requires forall n, leaf :: 0 <= n < |path| && Lookup(override, path[..n]) == Some(leaf) ==> leaf.Obj?
    ensures Lookup(Merge(base, override), path) == Lookup(base, path)
  {
    MergeLaw(base, override, path);
  }

  lemma MergeOverUndefined(override: Value)
    ensures Merge(Undefined, override) == override
  {
  }

  // ---------------------------------------------------------------- when the override survives whole

  /** `v` keeps every key of `base`, at every depth where both are objects. */
  predicate Covers(base: Value, v: Value)
    decreases base
  {
    base.Obj? && v.Obj? ==>
      forall key :: key in base.fields ==> key in v.fields && Covers(base.fields[key], v.fields[key])
  }

  /** Merging yields the override itself exactly when the override keeps the base's keys. */
  lemma {:induction false} MergeIsOverrideIff(base: Value, override: Value)
    ensures Merge(base, override) == override <==> Covers(base, override)
    decreases override
  {
    if base.Obj? && override.Obj? {
      var merged := Merge(base, override);
      forall key | key in override.fields
        ensures merged.fields[key] == override.fields[key] <==> Covers(Get(base, key), override.fields[key])
      {
        MergeIsOverrideIff(Get(base, key), override.fields[key]);
      }
      if Covers(base, override) {
        assert merged.fields == override.fields;
      } else {
        var key :| key in base.fields && !(key in override.fields && Covers(base.fields[key], override.fields[key]));
        assert key in merged.fields;
      }
    }
  }

  lemma {:induction false} CoversItself(v: Value)
    ensures Covers(v, v)
    decreases v
  {
    if v.Obj? {
      forall key | key in v.fields ensures Covers(v.fields[key], v.fields[key]) {
        CoversItself(v.fields[key]);
      }
    }
  }

  /** Merging a configuration over itself changes nothing. */
  lemma SelfMerge(c: Value)
    ensures Merge(c, c) == c
  {
    CoversItself(c);
    MergeIsOverrideIff(c, c);
  }

  /** Applying the same override again changes nothing. */
  lemma {:induction false} ReapplyingChangesNothing(base: Value, override: Value)
    ensures Merge(Merge(base, override), override) == Merge(base, override)
    decreases override
  {
    var merged := Merge(base, override);
    if !(base.Obj? && override.Obj?) {
      SelfMerge(override);
    } else {
      var again := Merge(merged, override);
      forall key | key in merged.fields ensures again.fields[key] == merged.fields[key] {
        if key in override.fields {
          ReapplyingChangesNothing(Get(base, key), override.fields[key]);
        }
      }
      assert again.fields.Keys == merged.fields.Keys;
      assert again.fields == merged.fields;
    }
  }

  // ---------------------------------------------------------------- merging three

  /**
   * Merging from the left and from the right agree: an override in the middle that is no object must not hide
   * keys of the base that the last override would inherit.
   */
  predicate Associates(a: Value, b: Value, c: Value)
    decreases b
  {
    a.Obj? && c.Obj? ==>
      if b.Obj? then
        forall key :: key in b.fields && key in c.fields ==> Associates(Get(a, key), b.fields[key], c.fields[key])
      else Covers(a, c)
  }

  /** Merging from the left and from the right. */
  predicate Agree(a: Value, b: Value, c: Value) {
    Merge(Merge(a, b), c) == Merge(a, Merge(b, c))
  }

  lemma AgreeAt(a: Config, b: Config, c: Config, key: string)
    requires key in a.fields.Keys + b.fields.Keys + c.fields.Keys
    ensures
      var left, right := Merge(Merge(a, b), c).fields, Merge(a, Merge(b, c)).fields;
      && key in left && key in right
      && (left[key] == right[key] <==>
            (key in b.fields && key in c.fields ==> Agree(Get(a, key), b.fields[key], c.fields[key])))
  {
    if key in c.fields && key !in b.fields {
      MergeOverUndefined(c.fields[key]);
    }
  }

  lemma MergedKeys(a: Config, b: Config)
    ensures Merge(a, b).fields.Keys == a.fields.Keys + b.fields.Keys
  {
  }

  lemma SameFields(left: map<string, Value>, right: map<string, Value>)
    requires left.Keys == right.Keys
    ensures left == right <==> forall key :: key in left ==> left[key] == right[key]
  {
  }

  /** Three objects agree exactly when they agree at every key that the last two have in common. */
  lemma AgreeIff(a: Config, b: Config, c: Config)
    ensures Agree(a, b, c) <==>
      forall key :: key in b.fields && key in c.fields ==> Agree(Get(a, key), b.fields[key], c.fields[key])
  {
    var left, right := Merge(Merge(a, b), c), Merge(a, Merge(b, c));
    MergedKeys(a, b);
    MergedKeys(Merge(a, b), c);
    MergedKeys(b, c);
    MergedKeys(a, Merge(b, c));
    assert left.fields.Keys == a.fields.Keys + b.fields.Keys + c.fields.Keys == right.fields.Keys;
    SameFields(left.fields, right.fields);
    forall key | key in left.fields
      ensures left.fields[key] == right.fields[key] <==>
        (key in b.fields && key in c.fields ==> Agree(Get(a, key), b.fields[key], c.fields[key]))
    {
      AgreeAt(a, b, c, key);
    }
  }

  /** Merging is associative on exactly the triples that `Associates`. */
  lemma {:induction false} AssociatesIff(a: Value, b: Value, c: Value)
    ensures Merge(Merge(a, b), c) == Merge(a, Merge(b, c)) <==> Associates(a, b, c)
    decreases b
  {
    if a.Obj? && c.Obj? {
      if b.Obj? {
        AgreeIff(a, b, c);
        forall key | key in b.fields && key in c.fields
          ensures Agree(Get(a, key), b.fields[key], c.fields[key])
             <==> Associates(Get(a, key), b.fields[key], c.fields[key])
        {
          AssociatesIff(Get(a, key), b.fields[key], c.fields[key]);
        }
      } else {
        MergeIsOverrideIff(a, c);
      }
    }
  }

  /** `{ x: { key: null } }`. */
  function Nested(key: string): Config {
    Obj(map["x" := Obj(map[key := Null])])
  }

  /** A leaf between two objects: from the left the first object is gone, from the right it is inherited. */
  lemma MergeIsNotAssociative()
    ensures
      var a, b, c := Nested("p"), Obj(map["x" := Null]), Nested("q");
      Merge(Merge(a, b), c) != Merge(a, Merge(b, c))
  {
    var a, b, c := Nested("p"), Obj(map["x" := Null]), Nested("q");
    assert "x" in b.fields && "x" in c.fields;
    assert "p" in Get(a, "x").fields && "p" !in c.fields["x"].fields;
    AssociatesIff(a, b, c);
  }
}
