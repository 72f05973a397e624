/**
 * The cached table of patchable properties of a target type T: which public properties may
 * be patched, keyed by their declared name. Reflection over T is replaced by an explicit list
 * of property descriptors, in the order reflection reports them.
 */
module PatchSchema {

  /** One public property of T, as reflection reports it. */
  datatype PropertyDescriptor = Property(
    name: string,          // declared name, case preserved
    propertyType: string,  // the property's static type, the converter's target
    canWrite: bool,        // the property has a set accessor (of any accessibility)
    notPatchable: bool)    // the property carries the NotPatchable marker attribute

  type Schema = map<string, PropertyDescriptor>

  /** A property is patchable when it is writable and not marked NotPatchable. */
  predicate Eligible(p: PropertyDescriptor) {
    p.canWrite && !p.notPatchable
  }

  /** Every entry of the table is a patchable property stored under its own declared name. */
  ghost predicate WellKeyed(table: Schema) {
    forall k :: k in table ==> table[k].name == k && Eligible(table[k])
  }

  /** The declared names of the patchable properties in `props`. */
  ghost function EligibleNames(props: seq<PropertyDescriptor>): set<string> {
    set i | 0 <= i < |props| && Eligible(props[i]) :: props[i].name
  }

  /** No two patchable properties in `props` share a declared name. */
  ghost predicate UniqueEligible(props: seq<PropertyDescriptor>) {
    forall i, j :: 0 <= i < j < |props| && Eligible(props[i]) && Eligible(props[j]) ==>
      props[i].name != props[j].name
  }

  /** No patchable property in `props` has a name already in `table`. */
  ghost predicate FreshFor(table: Schema, props: seq<PropertyDescriptor>) {
    forall i :: 0 <= i < |props| && Eligible(props[i]) ==> props[i].name !in table
  }

  /**
   * What the schema-building loop leaves behind: the table it filled and whether it ran to
   * the end (`complete`) or stopped at the `Dictionary.Add` of a name already present.
   */
  datatype Built = Built(table: Schema, complete: bool)

  /**
   * The building loop as a fold: visit `props` in order, adding each patchable property
   * under its declared name; a name already present ends the fold incomplete.
   */
  function Collect(table: Schema, props: seq<PropertyDescriptor>): Built
    decreases |props|
  {
    if props == [] then Built(table, true)
    else
      var p := props[0];
      if !Eligible(p) then Collect(table, props[1..])
      else if p.name in table then Built(table, false)
      else Collect(table[p.name := p], props[1..])
  }

  /**
   * The loop only adds to the table, and every entry it adds is a listed patchable property
   * stored under its own declared name, whether or not it runs to the end.
   */
  lemma {:induction false} CollectEntries(table: Schema, props: seq<PropertyDescriptor>)
    ensures var b := Collect(table, props);
      && (forall k :: k in table ==> k in b.table && b.table[k] == table[k])
      && (forall k :: k in b.table && k !in table ==>
            b.table[k] in props && Eligible(b.table[k]) && b.table[k].name == k)
    decreases |props|
  {
    if props != [] {
      var p, rest := props[0], props[1..];
      var next := if Eligible(p) && p.name !in table then table[p.name := p] else table;
      if !Eligible(p) || p.name !in table {
        CollectEntries(next, rest);
        var b := Collect(table, props);
        assert b == Collect(next, rest);
        forall k | k in b.table && k !in table ensures b.table[k] in props {
          if k in next {
            assert b.table[k] == props[0];
          } else {
            var j :| 0 <= j < |rest| && rest[j] == b.table[k];
            assert props[j + 1] == b.table[k];
          }
        }
      }
    }
  }

  /** Splitting off the first property of a non-empty list. */
  lemma {:induction false} UnconsFacts(table: Schema, props: seq<PropertyDescriptor>)
    requires props != []
    ensures EligibleNames(props) ==
      (if Eligible(props[0]) then {props[0].name} else {}) + EligibleNames(props[1..])
    ensures UniqueEligible(props) <==>
      UniqueEligible(props[1..]) &&
      (Eligible(props[0]) ==> forall j :: 0 <= j < |props[1..]| && Eligible(props[1..][j]) ==>
                                props[1..][j].name != props[0].name)
    ensures FreshFor(table, props) <==>
      (Eligible(props[0]) ==> props[0].name !in table) && FreshFor(table, props[1..])
  {
    var rest := props[1..];
    forall n | n in EligibleNames(props)
      ensures n in (if Eligible(props[0]) then {props[0].name} else {}) + EligibleNames(rest)
    {
      var i :| 0 <= i < |props| && Eligible(props[i]) && props[i].name == n;
      if i > 0 { assert rest[i - 1] == props[i]; }
    }
    forall n | n in EligibleNames(rest) ensures n in EligibleNames(props) {
      var i :| 0 <= i < |rest| && Eligible(rest[i]) && rest[i].name == n;
      assert props[i + 1] == rest[i];
    }
    if UniqueEligible(rest) && (Eligible(props[0]) ==> forall j :: 0 <= j < |rest| && Eligible(rest[j]) ==>
                                                       rest[j].name != props[0].name) {
      forall i, j | 0 <= i < j < |props| && Eligible(props[i]) && Eligible(props[j])
        ensures props[i].name != props[j].name
      {
        assert props[j] == rest[j - 1];
        if i > 0 { assert props[i] == rest[i - 1]; }
      }
    }
    if UniqueEligible(props) {
      forall i, j | 0 <= i < j < |rest| && Eligible(rest[i]) && Eligible(rest[j])
        ensures rest[i].name != rest[j].name
      {
        assert rest[i] == props[i + 1] && rest[j] == props[j + 1];
      }
      forall j | 0 <= j < |rest| && Eligible(rest[j]) && Eligible(props[0])
        ensures rest[j].name != props[0].name
      {
        assert rest[j] == props[j + 1];
      }
    }
    if (Eligible(props[0]) ==> props[0].name !in table) && FreshFor(table, rest) {
      forall i | 0 <= i < |props| && Eligible(props[i]) ensures props[i].name !in table {
        if i > 0 { assert props[i] == rest[i - 1]; }
      }
    }
    if FreshFor(table, props) {
      forall i | 0 <= i < |rest| && Eligible(rest[i]) ensures rest[i].name !in table {
        assert rest[i] == props[i + 1];
      }
    }
  }

  /**
   * The loop runs to the end exactly when no two patchable properties share a name and none
   * collides with a name already in the table.
   */
  lemma {:induction false} CollectCompleteIff(table: Schema, props: seq<PropertyDescriptor>)
    ensures Collect(table, props).complete <==> UniqueEligible(props) && FreshFor(table, props)
    decreases |props|
  {
    if props != [] {
      var p, rest := props[0], props[1..];
      UnconsFacts(table, props);
      if !Eligible(p) {
        CollectCompleteIff(table, rest);
      } else if p.name !in table {
        var next := table[p.name := p];
        CollectCompleteIff(next, rest);
        UnconsFacts(next, props);
        assert FreshFor(next, rest) <==>
          FreshFor(table, rest) &&
          forall j :: 0 <= j < |rest| && Eligible(rest[j]) ==> rest[j].name != p.name;
      }
    }
  }

  /** A completed loop adds exactly the names of the patchable properties. */
  lemma {:induction false} CollectKeys(table: Schema, props: seq<PropertyDescriptor>)
    ensures Collect(table, props).table.Keys <= table.Keys + EligibleNames(props)
    ensures Collect(table, props).complete ==>
      Collect(table, props).table.Keys == table.Keys + EligibleNames(props)
    decreases |props|
  {
    if props != [] {
      var p, rest := props[0], props[1..];
      UnconsFacts(table, props);
      if !Eligible(p) {
        CollectKeys(table, rest);
      } else if p.name !in table {
        CollectKeys(table[p.name := p], rest);
      }
    }
  }

  /**
   * The schema built from scratch: when the loop completes, a name is a key exactly when some
   * writable, not-NotPatchable property is declared with that name (case preserved), and the
   * entry is that property. When it stops early, the table holds a subset of those entries.
   */
  lemma SchemaIsPatchableProperties(props: seq<PropertyDescriptor>)
    ensures var b := Collect(map[], props);
      && WellKeyed(b.table)
      && (forall k :: k in b.table ==> b.table[k] in props)
      && b.table.Keys <= EligibleNames(props)
      && (b.complete <==> UniqueEligible(props))
      && (b.complete ==> b.table.Keys == EligibleNames(props))
  {
    CollectEntries(map[], props);
    CollectKeys(map[], props);
    CollectCompleteIff(map[], props);
  }

  /** One step of the building loop, at index `i`. */
  lemma CollectAt(table: Schema, props: seq<PropertyDescriptor>, i: nat)
    requires i < |props|
    ensures Collect(table, props[i..]) ==
      if !Eligible(props[i]) then Collect(table, props[i + 1..])
      else if props[i].name in table then Built(table, false)
      else Collect(table[props[i].name := props[i]], props[i + 1..])
  {
    assert props[i..][0] == props[i] && props[i..][1..] == props[i + 1..];
  }

  /**
   * The static m_patchableProperties of one closed generic type: `initialized` says whether
   * the static field is non-null, `table` holds the dictionary it points to.
   */
  class PropertyCache {
    var initialized: bool
    var table: Schema

    ghost predicate Valid()
      reads this
    {
      (!initialized ==> table == map[]) && WellKeyed(table)
    }

    /** The static field before any patcher of T has been constructed: null. */
    constructor ()
      ensures Valid() && !initialized
    {
      initialized := false;
      table := map[];
    }

    /**
     * The schema-building part of the patcher's constructor. Only the first construction
     * builds; later ones leave the table as it is. `ok` is false when `Dictionary.Add` threw
     * on a repeated name: the static field then already points at the partly filled table.
     */
    method EnsureBuilt(props: seq<PropertyDescriptor>) returns (ok: bool)
      requires Valid()
      modifies this
      ensures Valid() && initialized
      ensures old(initialized) ==> table == old(table) && ok
      ensures !old(initialized) ==>
        table == Collect(map[], props).table && ok == Collect(map[], props).complete
    {
      ok := true;
      if initialized {
        return;
      }
      initialized := true;
      table := map[];
      ghost var built := Collect(map[], props);
      var i := 0;
      while i < |props|
        invariant 0 <= i <= |props|
        invariant initialized && WellKeyed(table)
        invariant Collect(table, props[i..]) == built
      {
        var p := props[i];
        CollectAt(table, props, i);
        if p.canWrite {
          if !p.notPatchable {
            if p.name in table {
              ok := false;
              return;
            }
            table := table[p.name := p];
          }
        }
        assert Collect(table, props[i + 1..]) == built;
        i := i + 1;
      }
      assert props[i..] == [];
    }
  }
}
