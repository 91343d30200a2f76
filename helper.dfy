/**
 * Helper.SetProperties: copies every public property the source and the
 * target objects have in common from the source onto the target, except the
 * two lookup properties and any property the target cannot write.
 *
 * An object's public properties are a map from property name to value, in the
 * order reflection lists them (`names`), with the set of names that have a set
 * accessor of any visibility (`writable`, as `PropertyInfo.CanWrite`).
 */
module PropertyCopier {

  /** The two properties SetProperties never writes. */
  predicate IsReserved(n: string) {
    n == "LookupList" || n == "LookupField"
  }

  /** Whether SetProperties writes the target property n: the source has it, it is not reserved and the target can write it. */
  predicate Copies<V>(n: string, writable: set<string>, source: map<string, V>) {
    n in source && !IsReserved(n) && n in writable
  }

  /** The target's property values after SetProperties, as a whole. */
  function Copied<V>(target: map<string, V>, writable: set<string>, source: map<string, V>): (r: map<string, V>)
    ensures r.Keys == target.Keys
    ensures forall n :: n in target && Copies(n, writable, source) ==> r[n] == source[n]
    ensures forall n :: n in target && !Copies(n, writable, source) ==> r[n] == target[n]
  {
    map n | n in target :: if Copies(n, writable, source) then source[n] else target[n]
  }

  /** Copying the source onto a target that already received it changes nothing more. */
  lemma CopiedIdempotent<V>(target: map<string, V>, writable: set<string>, source: map<string, V>)
    ensures Copied(Copied(target, writable, source), writable, source) == Copied(target, writable, source)
  {
  }

  /** Copying an object onto itself changes nothing. */
  lemma CopiedFromItself<V>(target: map<string, V>, writable: set<string>)
    ensures Copied(target, writable, target) == target
  {
  }

  /** An object with public properties; its values are updated in place. */
  class PropertyObject<V> {
    const names: seq<string>
    const writable: set<string>
    var values: map<string, V>

    /** Every listed property has a value and every value belongs to a listed property. */
    ghost predicate Valid()
      reads this
    {
      values.Keys == set n | n in names
    }

    constructor (names: seq<string>, writable: set<string>, values: map<string, V>)
      requires values.Keys == set n | n in names
      ensures this.names == names && this.writable == writable && this.values == values
      ensures Valid()
    {
      this.names := names;
      this.writable := writable;
      this.values := values;
    }
  }

  /**
   * Walks the target's properties in order and writes the source's value into
   * each one SetProperties copies. The source is read as the loop goes, so the
   * target and the source may be the same object.
   */
  method SetProperties<V>(target: PropertyObject<V>, source: PropertyObject<V>)
    requires target.Valid()
    modifies target
    ensures target.Valid()
    ensures target.values == Copied(old(target.values), target.writable, old(source.values))
    ensures source != target ==> source.values == old(source.values)
  {
    ghost var before := target.values;
    ghost var from := source.values;
    var i := 0;
    while i < |target.names|
      invariant 0 <= i <= |target.names|
      invariant source != target ==> source.values == from
      invariant source == target ==> from == before
      invariant target.values.Keys == before.Keys
      invariant forall n :: n in before && n in target.names[..i] && Copies(n, target.writable, from) ==> target.values[n] == from[n]
      invariant forall n :: n in before && !(n in target.names[..i] && Copies(n, target.writable, from)) ==> target.values[n] == before[n]
    {
      var n := target.names[i];
      assert n in before;
      if n in source.values && !IsReserved(n) && n in target.writable {
        target.values := target.values[n := source.values[n]];
      }
      assert target.names[..i + 1] == target.names[..i] + [n];
      i := i + 1;
    }
    assert target.names[..i] == target.names;
  }
}
