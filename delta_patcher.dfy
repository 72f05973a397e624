/**
 * DeltaPatcher<T>: records which properties of a T were explicitly assigned, and to what,
 * and later replays exactly those assignments onto a target T.
 *
 * The dynamic-member hooks become explicit calls: `Set` is TrySetMember, `Get` is
 * TryGetMember, with the binder's Name and IgnoreCase passed as arguments. The type
 * converter (`ConvertFromString(value.ToString())`) is a parameter; a target T is an `Item`
 * whose property values sit in a map from declared property name to value.
 */
module DeltaPatching {
  import opened Wrappers
  import opened PatchSchema

  /** A .NET object reference: null, or an object, seen through its ToString() text. */
  datatype Value = Null | Obj(text: string)

  /**
   * The type converter for a property type, applied to a string: the converted object, or
   * None when the converter throws.
   */
  type Converter = (string, string) -> Option<Value>

  // ---------------------------------------------------------------------------------------
  // Property names

  predicate IsUpper(c: char) {
    'A' <= c <= 'Z'
  }

  predicate NoUpper(s: string) {
    forall i :: 0 <= i < |s| ==> !IsUpper(s[i])
  }

  function LowerChar(c: char): char {
    if IsUpper(c) then (c as int + 32) as char else c
  }

  /** String.ToLower, restricted to ASCII letters. */
  function Lower(s: string): (r: string)
    ensures |r| == |s| && NoUpper(r)
    ensures forall i :: 0 <= i < |s| && !IsUpper(s[i]) ==> r[i] == s[i]
    ensures forall i :: 0 <= i < |s| && IsUpper(s[i]) ==> r[i] as int == s[i] as int + 32
  {
    if s == [] then [] else [LowerChar(s[0])] + Lower(s[1..])
  }

  /** Lowering a name that has no upper-case letter gives the name back. */
  lemma {:induction false} LowerKeepsLowerCase(s: string)
    requires NoUpper(s)
    ensures Lower(s) == s
  {
    if s != [] {
      LowerKeepsLowerCase(s[1..]);
    }
  }

  /** Lowering twice is lowering once. */
  lemma LowerIdempotent(s: string)
    ensures Lower(Lower(s)) == Lower(s)
  {
    LowerKeepsLowerCase(Lower(s));
  }

  /** The dictionary key a binder name maps to: lowered only when the binder ignores case. */
  function KeyFor(name: string, ignoreCase: bool): (key: string)
    ensures !ignoreCase ==> key == name
    ensures ignoreCase ==> |key| == |name| && NoUpper(key)
    ensures ignoreCase ==> forall i :: 0 <= i < |name| ==> key[i] == LowerChar(name[i])
  {
    if ignoreCase then Lower(name) else name
  }

  /**
   * Schema keys keep their declared case, so a case-ignoring name can only ever find a
   * property whose declared name has no upper-case letter.
   */
  lemma IgnoreCaseFindsOnlyLowerCaseDeclared(table: Schema, name: string)
    requires WellKeyed(table)
    requires KeyFor(name, true) in table
    ensures NoUpper(table[KeyFor(name, true)].name)
  {
  }

  /** Names that differ only in ASCII case are recorded under one key when case is ignored. */
  lemma {:induction false} IgnoreCaseIdentifiesCaseVariants(a: string, b: string)
    requires |a| == |b|
    requires forall i :: 0 <= i < |a| ==> LowerChar(a[i]) == LowerChar(b[i])
    ensures KeyFor(a, true) == KeyFor(b, true)
  {
    if a != [] {
      IgnoreCaseIdentifiesCaseVariants(a[1..], b[1..]);
    }
  }

  // ---------------------------------------------------------------------------------------
  // Recording assignments (TrySetMember) and reading them back (TryGetMember)

  /**
   * The value TrySetMember would record for `key`: a non-null value for a schema property is
   * converted to the property's type, anything else is kept as given. None means the
   * converter threw.
   */
  function Stored(schema: Schema, key: string, value: Value, convert: Converter): Option<Value> {
    if value.Obj? && key in schema then convert(schema[key].propertyType, value.text)
    else Some(value)
  }

  /**
   * The recorded assignments after TrySetMember under `key`: the converted value is added
   * with `Dictionary.Add`, which throws when the key is already recorded.
   */
  function Record(values: map<string, Value>, schema: Schema, key: string, value: Value,
                  convert: Converter): (r: Result<map<string, Value>>)
    ensures r.Ok? <==>
      key !in values && (value.Obj? && key in schema ==> convert(schema[key].propertyType, value.text).Some?)
    ensures r.Ok? ==> r.value.Keys == values.Keys + {key}
    ensures r.Ok? ==> forall k :: k in values ==> r.value[k] == values[k]
    ensures r.Ok? && value.Null? ==> r.value[key] == Null
    ensures r.Ok? && value.Obj? && key !in schema ==> r.value[key] == value
    ensures r.Ok? && value.Obj? && key in schema ==>
      Some(r.value[key]) == convert(schema[key].propertyType, value.text)
    ensures r.Err? && value.Obj? && key in schema && convert(schema[key].propertyType, value.text).None? ==>
      r.error == ConversionFailed
    ensures r.Err? && (value.Null? || key !in schema || convert(schema[key].propertyType, value.text).Some?) ==>
      r.error == DuplicateKey
  {
    match Stored(schema, key, value, convert)
    case None => Err(ConversionFailed)
    case Some(v) => if key in values then Err(DuplicateKey) else Ok(values[key := v])
  }

  /** Dictionary.TryGetValue. */
  function Lookup(values: map<string, Value>, key: string): Option<Value> {
    if key in values then Some(values[key]) else None
  }

  /**
   * After a successful recording, reading the key back gives the stored value, and every
   * other key reads as before.
   */
  lemma RecordThenLookup(values: map<string, Value>, schema: Schema, key: string, value: Value,
                         convert: Converter, other: string)
    requires Record(values, schema, key, value, convert).Ok?
    ensures Lookup(Record(values, schema, key, value, convert).value, key) == Stored(schema, key, value, convert)
    ensures other != key ==>
      Lookup(Record(values, schema, key, value, convert).value, other) == Lookup(values, other)
  {
  }

  // ---------------------------------------------------------------------------------------
  // Applying the recorded assignments (Patch)

  /** The property values of `fields` after each recorded property is written. */
  function Overlay(fields: map<string, Value>, values: map<string, Value>): (r: map<string, Value>)
    ensures r.Keys == fields.Keys + values.Keys
    ensures forall k :: k in values ==> r[k] == values[k]
    ensures forall k :: k in fields && k !in values ==> r[k] == fields[k]
  {
    fields + values
  }

  /** The recorded assignments whose keys are in `keys`. */
  ghost function Restrict(values: map<string, Value>, keys: set<string>): map<string, Value> {
    map k | k in values && k in keys :: values[k]
  }

  /** Writing one more recorded key extends the partial overlay by that key. */
  lemma OverlayOneMore(fields: map<string, Value>, values: map<string, Value>, written: set<string>,
                       key: string)
    requires key in values
    ensures Overlay(fields, Restrict(values, written + {key})) ==
            Overlay(fields, Restrict(values, written))[key := values[key]]
  {
  }

  /** Patching twice with the same recorded values leaves the target as after patching once. */
  lemma OverlayIdempotent(fields: map<string, Value>, values: map<string, Value>)
    ensures Overlay(Overlay(fields, values), values) == Overlay(fields, values)
  {
  }

  /** A target T: the current value of each of its properties, by declared name. */
  class Item {
    var properties: map<string, Value>

    constructor (properties: map<string, Value>)
      ensures this.properties == properties
    {
      this.properties := properties;
    }
  }

  class DeltaPatcher {
    /** The static table of patchable properties shared by every patcher of T. */
    const cache: PropertyCache
    /** m_setValues: the recorded assignments, by (possibly lowered) name. */
    var setValues: map<string, Value>

    ghost predicate Valid()
      reads this, cache
    {
      cache.Valid() && cache.initialized
    }

    /** The field initialiser of m_setValues: a new patcher has recorded nothing. */
    constructor Init(cache: PropertyCache)
      requires cache.Valid() && cache.initialized
      ensures Valid() && this.cache == cache && setValues == map[]
    {
      this.cache := cache;
      setValues := map[];
    }

    /**
     * `new DeltaPatcher<T>()`: builds the shared table on first use, then starts a patcher
     * with nothing recorded. Fails when building the table hits a repeated property name.
     */
    static method Create(cache: PropertyCache, props: seq<PropertyDescriptor>) returns (r: Result<DeltaPatcher>)
      requires cache.Valid()
      modifies cache
      ensures cache.Valid() && cache.initialized
      ensures old(cache.initialized) ==> cache.table == old(cache.table)
      ensures !old(cache.initialized) ==> cache.table == Collect(map[], props).table
      ensures r.Ok? <==> old(cache.initialized) || Collect(map[], props).complete
      ensures r.Err? ==> r.error == DuplicateKey
      ensures r.Ok? ==> fresh(r.value) && r.value.cache == cache && r.value.Valid() && r.value.setValues == map[]
    {
      var ok := cache.EnsureBuilt(props);
      if !ok {
        return Err(DuplicateKey);
      }
      var patcher := new DeltaPatcher.Init(cache);
      r := Ok(patcher);
    }

    /**
     * TrySetMember: record `value` under the binder's name (lowered when the binder ignores
     * case). Returns normally when the assignment was added; fails, recording nothing, when
     * conversion throws or the name was already recorded.
     */
    method Set(name: string, ignoreCase: bool, value: Value, convert: Converter) returns (r: Outcome)
      requires Valid()
      modifies this
      ensures Valid()
      ensures var res := Record(old(setValues), cache.table, KeyFor(name, ignoreCase), value, convert);
        match res
        case Ok(m) => r == Pass && setValues == m
        case Err(e) => r == Fail(e) && setValues == old(setValues)
    {
      var key := name;
      if ignoreCase {
        key := Lower(name);
      }
      var v := value;
      if value != Null {
        if key in cache.table {
          var prop := cache.table[key];
          var converted := convert(prop.propertyType, value.text);
          if converted.None? {
            return Fail(ConversionFailed);
          }
          v := converted.value;
        }
      }
      if key in setValues {
        return Fail(DuplicateKey);
      }
      setValues := setValues[key := v];
      r := Pass;
    }

    /**
     * TryGetMember: the value recorded under the binder's name, or None when that name was
     * never recorded. Only the recorded assignments are consulted, never a target.
     */
    function Get(name: string, ignoreCase: bool): (r: Option<Value>)
      reads this
      ensures r.Some? <==> KeyFor(name, ignoreCase) in setValues
      ensures r.Some? ==> r.value == setValues[KeyFor(name, ignoreCase)]
    {
      Lookup(setValues, KeyFor(name, ignoreCase))
    }

    /**
     * Patch: write every recorded value onto the matching property of `baseItem`, visiting
     * the recorded keys in an unspecified order. A key missing from the table makes the
     * indexer throw; the keys visited before it (`written`) have already been written.
     */
    method Patch(baseItem: Item) returns (r: Outcome, ghost written: set<string>)
      requires Valid()
      modifies baseItem
      ensures written <= setValues.Keys && written <= cache.table.Keys
      ensures baseItem.properties == Overlay(old(baseItem.properties), Restrict(setValues, written))
      ensures r == Pass <==> setValues.Keys <= cache.table.Keys
      ensures r == Pass ==> baseItem.properties == Overlay(old(baseItem.properties), setValues)
      ensures r.Fail? ==> r.error == KeyNotFound
      ensures r.Fail? ==> exists k :: k in setValues && k !in cache.table && k !in written
    {
      written := {};
      var remaining := setValues.Keys;
      while remaining != {}
        invariant remaining <= setValues.Keys
        invariant written == setValues.Keys - remaining
        invariant written <= cache.table.Keys
        invariant baseItem.properties == Overlay(old(baseItem.properties), Restrict(setValues, written))
        decreases remaining
      {
        var key :| key in remaining;
        var result := setValues[key];
        if key !in cache.table {
          return Fail(KeyNotFound), written;
        }
        var prop := cache.table[key];
        OverlayOneMore(old(baseItem.properties), setValues, written, key);
        baseItem.properties := baseItem.properties[prop.name := result];
        written := written + {key};
        remaining := remaining - {key};
      }
      assert Restrict(setValues, written) == setValues;
      r := Pass;
    }
  }
}
