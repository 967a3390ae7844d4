/**
 * The constructor resolver: built once from a reflected class, it turns an
 * unordered array of named options into the positional argument list of the
 * class's constructor, or reports which options are undefined or missing.
 */
module ConstructorResolving {
  import opened Wrappers
  import opened PhpValues
  import opened Naming
  import opened Signature

  /** The two outcomes of a failed resolution, each naming every offending option. */
  datatype ResolveError =
    | UndefinedOptions(undefined: set<Key>)
    | MissingOptions(missing: set<string>)

  /** What `$hash[$name]` reads: the value under the key, or null when the key is absent. */
  function ValueOrNull(o: Option<Value>): Value
  {
    match o
    case Some(v) => v
    case None => Null
  }

  /** The values of `hash` under `names`, one per name, in the order of `names`. */
  function ArgsFor(names: seq<string>, hash: PhpArray): (args: seq<Value>)
    ensures |args| == |names|
    ensures forall i :: 0 <= i < |names| ==> args[i] == ValueOrNull(Lookup(hash, Name(names[i])))
  {
    if names == [] then []
    else [ValueOrNull(Lookup(hash, Name(names[0])))] + ArgsFor(names[1..], hash)
  }

  /**
   * The defaults the options do not override: one pair per name of `names` that
   * is an optional parameter of the table and is not a key of `options`.
   */
  function DefaultsNotIn(names: seq<string>, byKey: map<string, Param>, options: PhpArray): (d: PhpArray)
    ensures forall k :: k in KeysOf(d) <==>
                        k.Name? && k.s in names && k.s in byKey && !byKey[k.s].IsMandatory() && k !in KeysOf(options)
    ensures forall n :: n in byKey && Name(n) in KeysOf(d) ==> Lookup(d, Name(n)) == byKey[n].default
  {
    if names == [] then []
    else
      var n := names[0];
      var rest := DefaultsNotIn(names[1..], byKey, options);
      if n in byKey && !byKey[n].IsMandatory() && Name(n) !in KeysOf(options) then
        KeysOfCons((Name(n), byKey[n].default.value), rest);
        [(Name(n), byKey[n].default.value)] + rest
      else rest
  }

  class ConstructorResolver {
    /** The class whose constructor is resolved. */
    const reflected: ReflectedClass
    /** The constructor's parameters keyed by camel-cased name, in declaration order. */
    const constructorArgs: ArgTable

    ghost predicate Valid()
    {
      && constructorArgs == BuildTable(ConstructorParams(reflected))
      && WellFormed(constructorArgs)
    }

    /** Keeps the class and indexes its constructor's parameters one by one. */
    constructor (reflected: ReflectedClass)
      ensures GetReflected() == reflected
      ensures GetConstructorArgs() == BuildTable(ConstructorParams(reflected))
      ensures Valid()
    {
      this.reflected := reflected;
      var ps := ConstructorParams(reflected);
      var table := ArgTable([], map[]);
      for i := 0 to |ps|
        invariant table == BuildTable(ps[..i])
      {
        assert ps[..i + 1][..i] == ps[..i];
        table := Insert(table, ps[i]);
      }
      assert ps[..|ps|] == ps;
      BuildTableWellFormed(ps);
      this.constructorArgs := table;
    }

    /** `getReflected`: the class the resolver was built with, whose constructor the table indexes. */
    function GetReflected(): (c: ReflectedClass)
      ensures Valid() ==> GetConstructorArgs() == BuildTable(ConstructorParams(c))
    {
      reflected
    }

    /** `getConstructorArgs`: the parameter table, with each key listed once in the key order. */
    function GetConstructorArgs(): (t: ArgTable)
      ensures Valid() ==> WellFormed(t) && t == BuildTable(ConstructorParams(reflected))
    {
      constructorArgs
    }

    /** The option key names a constructor parameter. */
    predicate IsDefined(k: Key)
    {
      k.Name? && k.s in constructorArgs.byKey
    }

    /** The option keys that name no parameter. */
    function UndefinedKeys(options: PhpArray): set<Key>
    {
      set k | k in KeysOf(options) && !IsDefined(k)
    }

    /** The mandatory parameters the options do not supply. */
    function MissingNames(options: PhpArray): set<string>
    {
      set n | n in constructorArgs.byKey && constructorArgs.byKey[n].IsMandatory() && Name(n) !in KeysOf(options)
    }

    /** Every key of the options names a constructor parameter. */
    ghost predicate OnlyKnownKeys(options: PhpArray)
    {
      forall k :: k in KeysOf(options) ==> IsDefined(k)
    }

    /** Every mandatory constructor parameter is a key of the options. */
    ghost predicate MandatorySupplied(options: PhpArray)
    {
      forall n :: n in constructorArgs.byKey && constructorArgs.byKey[n].IsMandatory() ==> Name(n) in KeysOf(options)
    }

    /** The argument the parameter keyed `n` should receive: the option supplied for it, else its default. */
    ghost function Expected(options: PhpArray, n: string): Option<Value>
      requires n in constructorArgs.byKey
    {
      if Name(n) in KeysOf(options) then Lookup(options, Name(n)) else constructorArgs.byKey[n].default
    }

    /** Reorders a hash of camel-cased keys into constructor order; performs no validation. */
    function HashToArgsArray(hash: PhpArray): (args: seq<Value>)
      ensures |args| == |constructorArgs.keys|
      ensures forall i :: 0 <= i < |args| ==> args[i] == ValueOrNull(Lookup(hash, Name(constructorArgs.keys[i])))
    {
      ArgsFor(constructorArgs.keys, hash)
    }

    /**
     * The options merged with the defaults: a supplied option keeps its value, a
     * table key left out gets its parameter's default (none for a mandatory
     * parameter), and no other key is added.
     */
    function WithDefaults(options: PhpArray): (merged: PhpArray)
      ensures forall k :: k in KeysOf(options) ==> Lookup(merged, k) == Lookup(options, k)
      ensures forall n :: n in constructorArgs.keys && n in constructorArgs.byKey && Name(n) !in KeysOf(options) ==>
                          Lookup(merged, Name(n)) == constructorArgs.byKey[n].default
      ensures forall k :: k in KeysOf(merged) ==> k in KeysOf(options) || (k.Name? && k.s in constructorArgs.keys)
    {
      var d := DefaultsNotIn(constructorArgs.keys, constructorArgs.byKey, options);
      LookupAppendAll(options, d);
      options + d
    }

    /**
     * Validates the options against the constructor (undefined keys first, then
     * missing mandatory parameters), fills in defaults and orders the values.
     */
    function Resolve(options: PhpArray): (r: Result<seq<Value>, ResolveError>)
      ensures r.Ok? ==> |r.value| == |constructorArgs.keys|
    {
      var undefined := UndefinedKeys(options);
      if undefined != {} then Err(UndefinedOptions(undefined))
      else
        var missing := MissingNames(options);
        if missing != {} then Err(MissingOptions(missing))
        else Ok(HashToArgsArray(WithDefaults(options)))
    }
  }

  /** Resolution succeeds exactly when every key names a parameter and every mandatory parameter is supplied. */
  lemma ResolveSucceeds(res: ConstructorResolver, options: PhpArray)
    ensures res.Resolve(options).Ok? <==> res.OnlyKnownKeys(options) && res.MandatorySupplied(options)
  {
    if !res.OnlyKnownKeys(options) {
      var k :| k in KeysOf(options) && !res.IsDefined(k);
      assert k in res.UndefinedKeys(options);
    }
    if !res.MandatorySupplied(options) {
      var t := res.constructorArgs;
      var n :| n in t.byKey && t.byKey[n].IsMandatory() && Name(n) !in KeysOf(options);
      assert n in res.MissingNames(options);
    }
  }

  /**
   * A successful resolution gives each parameter, in table order, the option
   * supplied for it, or its default when the option is left out.
   */
  lemma ResolveArgs(res: ConstructorResolver, options: PhpArray)
    requires res.Valid()
    requires res.Resolve(options).Ok?
    ensures |res.Resolve(options).value| == |res.constructorArgs.keys|
    ensures forall i :: 0 <= i < |res.constructorArgs.keys| ==>
              Some(res.Resolve(options).value[i]) == res.Expected(options, res.constructorArgs.keys[i])
  {
    var t := res.constructorArgs;
    var r := res.Resolve(options);
    var d := DefaultsNotIn(t.keys, t.byKey, options);
    assert res.WithDefaults(options) == options + d;
    forall i | 0 <= i < |t.keys| ensures Some(r.value[i]) == res.Expected(options, t.keys[i]) {
      var n := t.keys[i];
      assert r.value[i] == ValueOrNull(Lookup(options + d, Name(n)));
      LookupAppend(options, d, Name(n));
      if Name(n) !in KeysOf(options) {
        assert n !in res.MissingNames(options);
        assert Name(n) in KeysOf(d);
      }
    }
  }

  /** A successful resolution is determined by the expected value of each parameter. */
  lemma ResolveValues(res: ConstructorResolver, options: PhpArray, vs: seq<Value>)
    requires res.Valid()
    requires res.Resolve(options).Ok?
    requires |vs| == |res.constructorArgs.keys|
    requires forall i :: 0 <= i < |vs| ==> Some(vs[i]) == res.Expected(options, res.constructorArgs.keys[i])
    ensures res.Resolve(options) == Ok(vs)
  {
    ResolveArgs(res, options);
    var r := res.Resolve(options).value;
    assert forall i :: 0 <= i < |vs| ==> Some(r[i]) == Some(vs[i]);
    assert r == vs;
  }

  /**
   * When no two parameters share a camel-cased name, a successful resolution has
   * one argument per constructor parameter, in declaration order.
   */
  lemma ResolveInDeclarationOrder(res: ConstructorResolver, options: PhpArray)
    requires res.Valid()
    requires DistinctCamelNames(ConstructorParams(res.reflected))
    requires res.Resolve(options).Ok?
    ensures |res.Resolve(options).value| == |ConstructorParams(res.reflected)|
    ensures forall i :: 0 <= i < |ConstructorParams(res.reflected)| ==>
              (var p := ConstructorParams(res.reflected)[i];
               Some(res.Resolve(options).value[i]) ==
                 if Name(SnakeToCamel(p.name)) in KeysOf(options) then Lookup(options, Name(SnakeToCamel(p.name)))
                 else p.default)
  {
    BuildTableInOrder(ConstructorParams(res.reflected));
    ResolveArgs(res, options);
  }

  /**
   * Resolution reports undefined options exactly when some key names no
   * parameter, and then names every such key, whatever else is missing.
   */
  lemma ResolveUndefined(res: ConstructorResolver, options: PhpArray)
    ensures res.Resolve(options).Err? && res.Resolve(options).error.UndefinedOptions? <==>
            !res.OnlyKnownKeys(options)
    ensures res.Resolve(options).Err? && res.Resolve(options).error.UndefinedOptions? ==>
            forall k :: k in res.Resolve(options).error.undefined <==> k in KeysOf(options) && !res.IsDefined(k)
  {
    if !res.OnlyKnownKeys(options) {
      var k :| k in KeysOf(options) && !res.IsDefined(k);
      assert k in res.UndefinedKeys(options);
    }
  }

  /**
   * Resolution reports missing options exactly when every key names a parameter
   * but some mandatory parameter is not supplied, and then names every one.
   */
  lemma ResolveMissing(res: ConstructorResolver, options: PhpArray)
    ensures res.Resolve(options).Err? && res.Resolve(options).error.MissingOptions? <==>
            res.OnlyKnownKeys(options) && !res.MandatorySupplied(options)
    ensures res.Resolve(options).Err? && res.Resolve(options).error.MissingOptions? ==>
            forall n :: n in res.Resolve(options).error.missing <==>
                        n in res.constructorArgs.byKey && res.constructorArgs.byKey[n].IsMandatory() &&
                        Name(n) !in KeysOf(options)
  {
    ResolveSucceeds(res, options);
    ResolveUndefined(res, options);
    if !res.MandatorySupplied(options) {
      var t := res.constructorArgs;
      var n :| n in t.byKey && t.byKey[n].IsMandatory() && Name(n) !in KeysOf(options);
      assert n in res.MissingNames(options);
    }
  }

  /** An undefined key is reported even when a mandatory parameter is missing too. */
  lemma UndefinedBeforeMissing(res: ConstructorResolver, options: PhpArray, k: Key, n: string)
    requires k in KeysOf(options) && !res.IsDefined(k)
    requires n in res.constructorArgs.byKey && res.constructorArgs.byKey[n].IsMandatory()
    requires Name(n) !in KeysOf(options)
    ensures res.Resolve(options) == Err(UndefinedOptions(res.UndefinedKeys(options)))
    ensures k in res.Resolve(options).error.undefined
  {
    assert k in res.UndefinedKeys(options);
  }

  /** The order of the options array does not matter to the reordering step. */
  lemma HashToArgsArrayPermutation(res: ConstructorResolver, a: PhpArray, b: PhpArray)
    requires DistinctKeys(a) && DistinctKeys(b)
    requires multiset(a) == multiset(b)
    ensures res.HashToArgsArray(a) == res.HashToArgsArray(b)
  {
    LookupPermutation(a, b);
  }

  /** The order of the options array does not matter to the resolution. */
  lemma ResolvePermutation(res: ConstructorResolver, a: PhpArray, b: PhpArray)
    requires DistinctKeys(a) && DistinctKeys(b)
    requires multiset(a) == multiset(b)
    ensures res.Resolve(a) == res.Resolve(b)
  {
    var t := res.constructorArgs;
    LookupPermutation(a, b);
    assert res.UndefinedKeys(a) == res.UndefinedKeys(b);
    assert res.MissingNames(a) == res.MissingNames(b);
    var da := DefaultsNotIn(t.keys, t.byKey, a);
    var db := DefaultsNotIn(t.keys, t.byKey, b);
    assert da == db by {
      DefaultsDependOnKeys(t.keys, t.byKey, a, b);
    }
    forall k ensures Lookup(a + da, k) == Lookup(b + db, k) {
      LookupAppend(a, da, k);
      LookupAppend(b, db, k);
    }
    assert res.WithDefaults(a) == a + da && res.WithDefaults(b) == b + db;
    assert res.HashToArgsArray(a + da) == res.HashToArgsArray(b + db);
  }

  /** `DefaultsNotIn` reads only the key set of the options. */
  lemma {:induction false} DefaultsDependOnKeys(names: seq<string>, byKey: map<string, Param>, a: PhpArray, b: PhpArray)
    requires KeysOf(a) == KeysOf(b)
    ensures DefaultsNotIn(names, byKey, a) == DefaultsNotIn(names, byKey, b)
  {
    if names != [] {
      DefaultsDependOnKeys(names[1..], byKey, a, b);
    }
  }
}
