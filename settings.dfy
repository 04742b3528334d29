/** `extend(defaults, obj)`, which both grids use to lay their options over
    their defaults, with plain objects modelled as maps from property name
    to value (own properties only). */
module Settings {

  /** The extended settings: every property of either object, with `obj`'s
      value where it has one and the default's otherwise. */
  function Extended<V>(defaults: map<string, V>, obj: map<string, V>): (r: map<string, V>)
    ensures r.Keys == defaults.Keys + obj.Keys
    ensures forall k :: k in obj ==> r[k] == obj[k]
    ensures forall k :: k in defaults && k !in obj ==> r[k] == defaults[k]
  {
    map k | k in defaults.Keys + obj.Keys :: if k in obj then obj[k] else defaults[k]
  }

  /** One `for (prop in source)` loop with its `hasOwnProperty` test:
      copies every property of `source` onto `target`, overwriting. */
  method CopyOwnProperties<V>(target: map<string, V>, source: map<string, V>) returns (r: map<string, V>)
    ensures r == Extended(target, source)
  {
    r := target;
    var todo := source.Keys;
    while todo != {}
      invariant todo <= source.Keys
      invariant r.Keys == target.Keys + (source.Keys - todo)
      invariant forall k :: k in r ==> r[k] == if k in source && k !in todo then source[k] else target[k]
      decreases todo
    {
      var k :| k in todo;
      r := r[k := source[k]];
      todo := todo - {k};
    }
  }

  /** betterTableFlex.js's `extend`: the defaults' properties copied onto an
      empty object, then `obj`'s. Neither input is changed (they are
      values). */
  method Extend<V>(defaults: map<string, V>, obj: map<string, V>) returns (r: map<string, V>)
    ensures r == Extended(defaults, obj)
  {
    var extended := CopyOwnProperties(map[], defaults);
    assert extended == defaults;
    r := CopyOwnProperties(extended, obj);
  }

  /** betterTable.js's `extend`: `Object.assign({}, defaults)`, then `obj`'s
      own properties copied on. */
  method ExtendByAssign<V>(defaults: map<string, V>, obj: map<string, V>) returns (r: map<string, V>)
    ensures r == Extended(defaults, obj)
  {
    var extension := defaults;
    r := CopyOwnProperties(extension, obj);
  }
}
