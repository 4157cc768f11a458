/**
 * The sparse per-session override that the dashboard derives from a full edited configuration
 * (dashboard/src/pages/Plugins.tsx:61-79 and 388-409, dashboard/src/utils/pluginConfigForm.ts:4-26),
 * as a partial inverse of the merge.
 */
module SessionOverride {
  import opened Wrappers
  import opened ConfigMerge

  datatype Kind = Text | Number | Boolean | Array | Object

  datatype Field = Field(kind: Kind, secret: bool, initial: Value, options: seq<Value>, properties: map<string, Field>)

  type Schema = map<string, Field>

  /** `emptyForField`: what the form shows for a field that has no value. */
  function EmptyForField(field: Field): Value {
    if field.initial != Undefined then field.initial
    else if field.options != [] then field.options[0]
    else
      match field.kind
      case Boolean => Bool(false)
      case Array => Arr([])
      case Object => Obj(map key | key in field.properties :: EmptyForField(field.properties[key]))
      case Number => Undefined
      case Text => Str("")
  }

  /** A default or a first option goes before the empty value of the kind. */
  lemma EmptyValues(initial: Value, first: Value, more: seq<Value>, kind: Kind, properties: map<string, Field>)
    ensures initial != Undefined ==> EmptyForField(Field(kind, false, initial, more, properties)) == initial
    ensures EmptyForField(Field(kind, false, Undefined, [first] + more, properties)) == first
    ensures EmptyForField(Field(Text, false, Undefined, [], properties)) == Str("")
    ensures EmptyForField(Field(Number, false, Undefined, [], properties)) == Undefined
    ensures EmptyForField(Field(Boolean, false, Undefined, [], properties)) == Bool(false)
    ensures EmptyForField(Field(Array, false, Undefined, [], properties)) == Arr([])
  {
  }

  /** An object field shows its declared properties, each with its own empty value. */
  lemma EmptyObject(secret: bool, properties: map<string, Field>, key: string)
    ensures var empty := EmptyForField(Field(Object, secret, Undefined, [], properties));
            && empty.Obj? && empty.fields.Keys == properties.Keys
            && (key in properties ==> empty.fields[key] == EmptyForField(properties[key]))
  {
  }

  // ---------------------------------------------------------------- JSON text

  /** A value that JSON text can hold: nothing in it is `undefined`. */
  predicate IsJsonValue(v: Value) {
    match v
    case Undefined => false
    case Arr(items) => forall i :: 0 <= i < |items| ==> IsJsonValue(items[i])
    case Obj(fields) => forall key :: key in fields ==> IsJsonValue(fields[key])
    case _ => true
  }

  /** Writing and reading back changes exactly what holds something undefined. */
  lemma {:induction false} WireKeepsIff(v: Value)
    ensures Wire(v) == v <==> IsJsonValue(v) || v == Undefined
    ensures v != Undefined ==> IsJsonValue(Wire(v))
    decreases v
  {
    match v
    case Arr(items) =>
      forall i | 0 <= i < |items|
        ensures Wire(items[i]) == items[i] <==> IsJsonValue(items[i]) || items[i] == Undefined
        ensures items[i] != Undefined ==> IsJsonValue(Wire(items[i]))
      {
        WireKeepsIff(items[i]);
      }
      WireOfItems(items);
    case Obj(fields) =>
      forall key | key in fields
        ensures Wire(fields[key]) == fields[key] <==> IsJsonValue(fields[key]) || fields[key] == Undefined
        ensures fields[key] != Undefined ==> IsJsonValue(Wire(fields[key]))
      {
        WireKeepsIff(fields[key]);
      }
      WireOfFields(fields);
    case _ =>
  }

  /** An array keeps its length; what is undefined in it becomes `null`. */
  lemma WireOfItems(items: seq<Value>)
    ensures var w := Wire(Arr(items));
            && w.Arr? && |w.items| == |items|
            && (forall i :: 0 <= i < |items| ==> w.items[i] == if items[i] == Undefined then Null else Wire(items[i]))
            && (w == Arr(items) <==> forall i :: 0 <= i < |items| ==> w.items[i] == items[i])
  {
    forall i | 0 <= i < |items|
      ensures Wire(items[i]) == Undefined <==> items[i] == Undefined
    {
    }
    var w := Wire(Arr(items));
    assert (forall i :: 0 <= i < |items| ==> w.items[i] == items[i]) ==> w.items == items;
  }

  /** An object loses the keys that hold something undefined. */
  lemma WireOfFields(fields: map<string, Value>)
    ensures var w := Wire(Obj(fields));
            && w.Obj? && (forall key :: key in w.fields <==> key in fields && fields[key] != Undefined)
            && (forall key :: key in w.fields ==> w.fields[key] == Wire(fields[key]))
            && (w == Obj(fields) <==> forall key :: key in fields ==> key in w.fields && w.fields[key] == fields[key])
  {
    forall key | key in fields
      ensures Wire(fields[key]) == Undefined <==> fields[key] == Undefined
    {
    }
    var w := Wire(Obj(fields));
    assert (forall key :: key in fields ==> key in w.fields && w.fields[key] == fields[key]) ==> w.fields == fields;
  }

  /** What is left of a value once it has been written as JSON text and read back. */
  function Wire(v: Value): (w: Value)
    ensures v.Obj? ==> w.Obj?
  {
    match v
    case Arr(items) =>
      Arr(seq(|items|, i requires 0 <= i < |items| => var w := Wire(items[i]); if w == Undefined then Null else w))
    case Obj(fields) => Obj(map key | key in fields && Wire(fields[key]) != Undefined :: Wire(fields[key]))
    case _ => v
  }

  lemma WireOfKey(v: Config, key: string)
    ensures Get(Wire(v), key) == Wire(Get(v, key))
    ensures key in Wire(v).fields <==> key in v.fields && Wire(v.fields[key]) != Undefined
  {
  }

  lemma {:induction false} WireIsIdempotent(v: Value)
    ensures Wire(Wire(v)) == Wire(v)
    decreases v
  {
    match v
    case Arr(items) =>
      forall i | 0 <= i < |items| ensures Wire(Wire(items[i])) == Wire(items[i]) {
        WireIsIdempotent(items[i]);
      }
      assert Wire(Wire(v)).items == Wire(v).items;
    case Obj(fields) =>
      var once := Wire(v);
      forall key | key in fields ensures Wire(Wire(fields[key])) == Wire(fields[key]) {
        WireIsIdempotent(fields[key]);
      }
      assert Wire(once).fields.Keys == once.fields.Keys;
      assert Wire(once).fields == once.fields;
    case _ =>
  }

  /**
   * Comparing JSON texts: equal texts read back as the same value. The texts of equal objects may still
   * differ, because keys are written in the order in which they were inserted.
   */
  ghost predicate ComparesText(same: (Value, Value) -> bool) {
    forall a, b :: same(a, b) ==> Wire(a) == Wire(b)
  }

  /** A comparison in which the order of keys plays no part. */
  ghost predicate ComparesMeaning(same: (Value, Value) -> bool) {
    forall a, b :: same(a, b) <==> Wire(a) == Wire(b)
  }

  // ---------------------------------------------------------------- the sparse override

  /** The override carries this key of the edited configuration. */
  predicate Carries(full: Config, base: Config, field: Field, key: string, same: (Value, Value) -> bool) {
    key in full.fields &&
    (field.secret ||
      (!same(full.fields[key], Get(base, key)) &&
       !(Get(base, key) == Undefined && same(full.fields[key], EmptyForField(field)))))
  }

  function Sparse(full: Config, base: Config, props: Schema, same: (Value, Value) -> bool): (out: Config)
    ensures forall key :: key in out.fields <==> key in props && Carries(full, base, props[key], key, same)
    ensures forall key :: key in out.fields ==> key in full.fields && out.fields[key] == full.fields[key]
  {
    Obj(map key | key in props && Carries(full, base, props[key], key, same) :: full.fields[key])
  }

  /** `sparseSessionOverride`, its keys taken in any order. */
  method SparseSessionOverride(full: Config, base: Config, schema: Option<Schema>, same: (Value, Value) -> bool)
    returns (out: Config)
    ensures out == if schema.Some? then Sparse(full, base, schema.value, same) else full
  {
    if schema.None? {
      return full;
    }
    var props := schema.value;
    var fields: map<string, Value> := map[];
    var todo := props.Keys;
    while todo != {}
      invariant todo <= props.Keys
      invariant forall key :: key in fields <==> key in props.Keys - todo && Carries(full, base, props[key], key, same)
      invariant forall key :: key in fields ==> key in full.fields && fields[key] == full.fields[key]
      decreases |todo|
    {
      var key :| key in todo;
      todo := todo - {key};
      var field := props[key];
      if key !in full.fields {
        continue;
      }
      var val := full.fields[key];
      if field.secret {
        fields := fields[key := val];
        continue;
      }
      if same(val, Get(base, key)) {
        continue;
      }
      if Get(base, key) == Undefined && same(val, EmptyForField(field)) {
        continue;
      }
      fields := fields[key := val];
    }
    assert fields == Sparse(full, base, props, same).fields;
    return Obj(fields);
  }

  // ---------------------------------------------------------------- resolving it over the base

  /** What a session sees once the sparse override has been sent and stored. */
  function Resolved(full: Config, base: Config, props: Schema, same: (Value, Value) -> bool): Config {
    Merge(base, Wire(Sparse(full, base, props, same)))
  }

  lemma ResolvedKey(full: Config, base: Config, props: Schema, same: (Value, Value) -> bool, key: string)
    ensures var override := Wire(Sparse(full, base, props, same));
            Get(Resolved(full, base, props, same), key)
            == if key in override.fields then Merge(Get(base, key), Wire(full.fields[key])) else Get(base, key)
  {
    WireOfKey(Sparse(full, base, props, same), key);
  }

  /**
   * The edited value survives: it is the base's, or it is present, it is not just the empty default of a
   * field the base does not set, and it keeps the keys of the base's object.
   */
  predicate Survives(full: Config, base: Config, field: Field, key: string, same: (Value, Value) -> bool) {
    var before, after := Get(base, key), Wire(Get(full, key));
    || after == before
    || (after != Undefined &&
          if before == Undefined then !same(Get(full, key), EmptyForField(field)) else Covers(before, after))
  }

  /**
   * Resolving the sparse override gives back the edited value of a declared key that is not secret exactly
   * when that value survives. The base has been stored as JSON.
   */
  lemma SparseThenResolveIff(full: Config, base: Config, props: Schema, same: (Value, Value) -> bool, key: string)
    requires ComparesText(same) && Wire(base) == base
    requires key in props && !props[key].secret && key in full.fields
    ensures Get(Resolved(full, base, props, same), key) == Wire(full.fields[key])
       <==> Survives(full, base, props[key], key, same)
  {
    var before, after := Get(base, key), Wire(full.fields[key]);
    ResolvedKey(full, base, props, same, key);
    WireOfKey(Sparse(full, base, props, same), key);
    WireOfKey(base, key);
    MergeIsOverrideIff(before, after);
    if after == before {
      SelfMerge(before);
    }
  }

  /** A key that is not declared, or not in the edited configuration, keeps following the base. */
  lemma OtherKeysFollowBase(full: Config, base: Config, props: Schema, same: (Value, Value) -> bool, key: string)
    requires key !in props || key !in full.fields
    ensures Get(Resolved(full, base, props, same), key) == Get(base, key)
  {
    ResolvedKey(full, base, props, same, key);
  }

  /** An unchanged value follows later changes of the base. */
  lemma UnchangedFollowsBase(
      full: Config, base: Config, later: Config, props: Schema, same: (Value, Value) -> bool, key: string)
    requires ComparesMeaning(same) && Wire(base) == base
    requires key in props && !props[key].secret && key in full.fields && Wire(full.fields[key]) == Get(base, key)
    ensures Get(Merge(later, Wire(Sparse(full, base, props, same))), key) == Get(later, key)
  {
    WireOfKey(base, key);
    WireOfKey(Sparse(full, base, props, same), key);
    assert key !in Wire(Sparse(full, base, props, same)).fields;
  }

  /** A secret is stored whenever the form holds it, whatever the base and the defaults say. */
  lemma SecretIsKept(full: Config, base: Config, props: Schema, same: (Value, Value) -> bool, key: string)
    requires key in props && props[key].secret && key in full.fields && full.fields[key] != Undefined
    ensures Get(Sparse(full, base, props, same), key) == full.fields[key]
    ensures !full.fields[key].Obj? ==> Get(Resolved(full, base, props, same), key) == Wire(full.fields[key])
  {
    ResolvedKey(full, base, props, same, key);
    WireOfKey(Sparse(full, base, props, same), key);
  }

  // ---------------------------------------------------------------- opening the form again

  /** What the form shows for a key that the override does not set. */
  function Shown(base: Config, field: Field, key: string): Value {
    if Get(base, key) == Undefined || Get(base, key) == Null then EmptyForField(field) else Get(base, key)
  }

  /** The form seeded from a stored override and the base. */
  function Seed(base: Config, override: Config, props: Schema): Config {
    Obj(map key | key in props :: if key in override.fields then override.fields[key] else Shown(base, props[key], key))
  }

  /**
   * Opening the form on a stored override and saving it untouched stores the same override, key by key,
   * exactly unless the base holds `null` for a key whose empty default is something else.
   */
  lemma ReopenIff(full: Config, base: Config, props: Schema, same: (Value, Value) -> bool, key: string)
    requires ComparesMeaning(same) && Wire(base) == base && key in props && !props[key].secret
    ensures
      var stored := Wire(Sparse(full, base, props, same));
      var again := Wire(Sparse(Seed(base, stored, props), base, props, same));
      Get(again, key) == Get(stored, key) <==>
        (key in stored.fields || Get(base, key) != Null || Wire(EmptyForField(props[key])) in {Undefined, Null})
  {
    var field, before := props[key], Get(base, key);
    var stored := Wire(Sparse(full, base, props, same));
    var seeded := Seed(base, stored, props);
    WireOfKey(base, key);
    WireOfKey(Sparse(full, base, props, same), key);
    WireOfKey(Sparse(seeded, base, props, same), key);
    WireIsIdempotent(Get(full, key));
    WireIsIdempotent(EmptyForField(field));
    if key in stored.fields {
      assert seeded.fields[key] == Wire(full.fields[key]);
    } else {
      assert seeded.fields[key] == Shown(base, field, key);
    }
  }

  /** With `null` in the base of a text field, an untouched save pins the empty text that the form shows. */
  lemma ReopenPinsEmptyText(same: (Value, Value) -> bool)
    requires ComparesMeaning(same)
    ensures
      var props: Schema := map["k" := Field(Text, false, Undefined, [], map[])];
      var base := Obj(map["k" := Null]);
      var stored := Wire(Sparse(base, base, props, same));
      var again := Wire(Sparse(Seed(base, stored, props), base, props, same));
      Get(stored, "k") == Undefined && Get(again, "k") == Str("")
  {
    var props: Schema := map["k" := Field(Text, false, Undefined, [], map[])];
    var base := Obj(map["k" := Null]);
    var stored := Wire(Sparse(base, base, props, same));
    WireOfKey(Sparse(base, base, props, same), "k");
    WireOfKey(Sparse(Seed(base, stored, props), base, props, same), "k");
    assert same(Null, Null) && !same(Str(""), Null);
  }

  /** Dropping a nested key in the form has no effect: the key comes back from the base. */
  lemma DroppedKeyComesBack(same: (Value, Value) -> bool)
    requires ComparesText(same)
    ensures
      var props: Schema := map["n" := Field(Object, false, Undefined, [], map[])];
      var base, full := Obj(map["n" := Obj(map["p" := Null, "q" := Null])]), Obj(map["n" := Obj(map["p" := Null])]);
      Get(Resolved(full, base, props, same), "n") != Wire(full.fields["n"])
  {
    var props: Schema := map["n" := Field(Object, false, Undefined, [], map[])];
    var base, full := Obj(map["n" := Obj(map["p" := Null, "q" := Null])]), Obj(map["n" := Obj(map["p" := Null])]);
    var before, after := Get(base, "n"), full.fields["n"];
    StoredNulls(before.fields);
    StoredNulls(after.fields);
    assert Wire(base) == base;
    assert "q" in before.fields && "q" !in after.fields;
    SparseThenResolveIff(full, base, props, same, "n");
  }

  /** An object of `null` values reads back as it was written. */
  lemma StoredNulls(fields: map<string, Value>)
    requires forall key :: key in fields ==> fields[key] == Null
    ensures Wire(Obj(fields)) == Obj(fields)
  {
    assert Wire(Obj(fields)).fields == fields;
  }
}
