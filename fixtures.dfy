/**
 * The `SampleClass` fixture of the resolver's tests and the expectations the
 * tests state about it.
 *
 * Most lemmas below take the fixture's key strings as parameters, pinned by
 * `requires kM == "mandatory" && ...`, instead of writing the literals inline.
 * Under that form the verifier handles each key as an opaque value whose few
 * stated facts (its length, one distinguishing character) are all it needs,
 * rather than unfolding every string literal character by character in every
 * proof; the generic reasoning lives in lemmas that mention no literal at all.
 */
module Fixtures {
  import opened Wrappers
  import opened PhpValues
  import opened Naming
  import opened Signature
  import opened ConstructorResolving

  const Mandatory := Param("mandatory", None)
  const OptionalA := Param("optionalA", Some(Str("AAA")))
  const OptionalB := Param("optionalB", Some(Str("BBB")))
  const OptionalSnake := Param("optional_snake", Some(Str("snake")))

  /** `__construct($mandatory, $optionalA = 'AAA', $optionalB = 'BBB', $optional_snake = 'snake')` */
  function SampleParams(): seq<Param>
  {
    [Mandatory, OptionalA, OptionalB, OptionalSnake]
  }

  function SampleClass(): ReflectedClass
  {
    ReflectedClass("Cascade\\Tests\\Fixtures\\SampleClass", Some(SampleParams()))
  }

  /** The tests' `setUp`: a resolver for `SampleClass`, which names the class it was built with. */
  method NewSampleResolver() returns (res: ConstructorResolver)
    ensures res.Valid() && res.reflected == SampleClass()
    ensures res.GetReflected().name == "Cascade\\Tests\\Fixtures\\SampleClass"
  {
    res := new ConstructorResolver(SampleClass());
  }

  lemma UpperS()
    ensures ToUpper('s') == 'S'
  {
  }

  lemma JoinRaisedSnake()
    ensures JoinSegments("snake", true) == "Snake"
  {
    assert "snake"[1..] == "nake";
    JoinSegmentsPlain("nake", []);
    assert "nake" + [] == "nake";
    UpperS();
  }

  lemma JoinSnake()
    ensures JoinSegments("_snake", false) == "Snake"
  {
    assert "_snake"[1..] == "snake";
    JoinRaisedSnake();
  }

  lemma JoinOptionalSnake()
    ensures JoinSegments("optional_snake", false) == "optionalSnake"
  {
    assert "optional_snake" == "optional" + "_snake";
    JoinSegmentsPlain("optional", "_snake");
    JoinSnake();
  }

  /** The snake-cased parameter is keyed `optionalSnake`. */
  lemma OptionalSnakeKey()
    ensures SnakeToCamel("optional_snake") == "optionalSnake"
  {
    JoinOptionalSnake();
  }

  /** The keys of the fixture's parameters, each stated of a parameter variable. */
  lemma KeyOfMandatory(p: Param)
    requires p == Mandatory
    ensures SnakeToCamel(p.name) == "mandatory"
  {
    SnakeToCamelIdentity(p.name);
  }

  lemma KeyOfOptionalA(p: Param)
    requires p == OptionalA
    ensures SnakeToCamel(p.name) == "optionalA"
  {
    SnakeToCamelIdentity(p.name);
  }

  lemma KeyOfOptionalB(p: Param)
    requires p == OptionalB
    ensures SnakeToCamel(p.name) == "optionalB"
  {
    SnakeToCamelIdentity(p.name);
  }

  lemma KeyOfOptionalSnake(p: Param)
    requires p == OptionalSnake
    ensures SnakeToCamel(p.name) == "optionalSnake"
  {
    OptionalSnakeKey();
  }

  /** The four keys of the fixture are distinct. */
  lemma FixtureKeysDistinct(ks: seq<string>)
    requires |ks| == 4
    requires ks[0] == "mandatory" && ks[1] == "optionalA" && ks[2] == "optionalB" && ks[3] == "optionalSnake"
    ensures forall i, j :: 0 <= i < j < |ks| ==> ks[i] != ks[j]
  {
    assert ks[1][8] != ks[2][8];
  }

  /** A table built from parameters whose keys are known and distinct. */
  lemma TableWithKeys(ps: seq<Param>, ks: seq<string>)
    requires |ps| == |ks|
    requires forall i :: 0 <= i < |ps| ==> SnakeToCamel(ps[i].name) == ks[i]
    requires forall i, j :: 0 <= i < j < |ks| ==> ks[i] != ks[j]
    ensures BuildTable(ps).keys == ks
    ensures forall i :: 0 <= i < |ks| ==> ks[i] in BuildTable(ps).byKey && BuildTable(ps).byKey[ks[i]] == ps[i]
  {
    assert DistinctCamelNames(ps);
    BuildTableInOrder(ps);
  }

  /**
   * The resolver built from `SampleClass` holds one entry per constructor
   * parameter, under the camel-cased name, in declaration order.
   */
  lemma SampleTable(res: ConstructorResolver)
    requires res.Valid() && res.reflected == SampleClass()
    ensures res.GetConstructorArgs().keys == ["mandatory", "optionalA", "optionalB", "optionalSnake"]
    ensures forall i :: 0 <= i < 4 ==>
              res.GetConstructorArgs().keys[i] in res.GetConstructorArgs().byKey &&
              res.GetConstructorArgs().byKey[res.GetConstructorArgs().keys[i]] == SampleParams()[i]
  {
    var ps := ConstructorParams(res.reflected);
    var ks := ["mandatory", "optionalA", "optionalB", "optionalSnake"];
    KeyOfMandatory(ps[0]);
    KeyOfOptionalA(ps[1]);
    KeyOfOptionalB(ps[2]);
    KeyOfOptionalSnake(ps[3]);
    forall i | 0 <= i < 4 ensures SnakeToCamel(ps[i].name) == ks[i] {
      if i == 0 {} else if i == 1 {} else if i == 2 {} else {}
    }
    FixtureKeysDistinct(ks);
    TableWithKeys(ps, ks);
  }

  /** The fixture's keys as seen by `Resolve`: which are known, which is mandatory, what defaults they have. */
  lemma SampleShape(res: ConstructorResolver, kM: string, kA: string, kB: string, kS: string)
    requires res.Valid() && res.reflected == SampleClass()
    requires kM == "mandatory" && kA == "optionalA" && kB == "optionalB" && kS == "optionalSnake"
    ensures res.constructorArgs.keys == [kM, kA, kB, kS]
    ensures forall n :: n in res.constructorArgs.byKey <==> n == kM || n == kA || n == kB || n == kS
    ensures kM in res.constructorArgs.byKey && res.constructorArgs.byKey[kM] == Mandatory
    ensures kA in res.constructorArgs.byKey && res.constructorArgs.byKey[kA] == OptionalA
    ensures kB in res.constructorArgs.byKey && res.constructorArgs.byKey[kB] == OptionalB
    ensures kS in res.constructorArgs.byKey && res.constructorArgs.byKey[kS] == OptionalSnake
  {
    SampleTable(res);
    var t := res.constructorArgs;
    assert t.keys[0] == kM && t.keys[1] == kA && t.keys[2] == kB && t.keys[3] == kS;
    FourKeys(t, kM, kA, kB, kS);
  }

  lemma FourKeys(t: ArgTable, a: string, b: string, c: string, d: string)
    requires WellFormed(t) && t.keys == [a, b, c, d]
    ensures forall n :: n in t.byKey <==> n == a || n == b || n == c || n == d
  {
  }

  /** The value supplied under `k`, or `dflt` when `k` is not a key of the options. */
  function SuppliedOr(options: PhpArray, k: Key, dflt: Value): (v: Value)
    ensures k in KeysOf(options) ==> Lookup(options, k) == Some(v)
    ensures k !in KeysOf(options) ==> v == dflt
  {
    match Lookup(options, k)
    case Some(v) => v
    case None => dflt
  }

  /**
   * Over a table of four keys of which only the first is mandatory, options that
   * use only those keys and supply the first resolve to the supplied values, with
   * the defaults of the others where they are left out.
   */
  lemma ResolveFourKeys(res: ConstructorResolver, o: PhpArray, kM: string, kA: string, kB: string, kS: string,
                        dA: Value, dB: Value, dS: Value)
    requires res.Valid()
    requires res.constructorArgs.keys == [kM, kA, kB, kS]
    requires forall n :: n in res.constructorArgs.byKey <==> n == kM || n == kA || n == kB || n == kS
    requires kM in res.constructorArgs.byKey && res.constructorArgs.byKey[kM].IsMandatory()
    requires kA in res.constructorArgs.byKey && res.constructorArgs.byKey[kA].default == Some(dA)
    requires kB in res.constructorArgs.byKey && res.constructorArgs.byKey[kB].default == Some(dB)
    requires kS in res.constructorArgs.byKey && res.constructorArgs.byKey[kS].default == Some(dS)
    requires KeysOf(o) <= {Name(kM), Name(kA), Name(kB), Name(kS)}
    requires Name(kM) in KeysOf(o)
    ensures res.Resolve(o) == Ok([SuppliedOr(o, Name(kM), Null), SuppliedOr(o, Name(kA), dA),
                                  SuppliedOr(o, Name(kB), dB), SuppliedOr(o, Name(kS), dS)])
  {
    var t := res.constructorArgs;
    var vs := [SuppliedOr(o, Name(kM), Null), SuppliedOr(o, Name(kA), dA),
               SuppliedOr(o, Name(kB), dB), SuppliedOr(o, Name(kS), dS)];
    ExpectedIsSupplied(res, o, kM, Null);
    ExpectedIsSupplied(res, o, kA, dA);
    ExpectedIsSupplied(res, o, kB, dB);
    ExpectedIsSupplied(res, o, kS, dS);
    forall i | 0 <= i < 4 ensures Some(vs[i]) == res.Expected(o, t.keys[i]) {
      if i == 0 {} else if i == 1 {} else if i == 2 {} else {}
    }
    assert res.OnlyKnownKeys(o) by {
      forall k | k in KeysOf(o) ensures res.IsDefined(k) {
        assert k == Name(kM) || k == Name(kA) || k == Name(kB) || k == Name(kS);
      }
    }
    assert res.MandatorySupplied(o) by {
      forall n | n in t.byKey && t.byKey[n].IsMandatory() ensures Name(n) in KeysOf(o) {
        assert n == kM || n == kA || n == kB || n == kS;
      }
    }
    ResolveSucceeds(res, o);
    ResolveValues(res, o, vs);
  }

  /** What a parameter receives, read off the options with its default as fallback. */
  lemma ExpectedIsSupplied(res: ConstructorResolver, o: PhpArray, n: string, dflt: Value)
    requires n in res.constructorArgs.byKey
    requires res.constructorArgs.byKey[n].default == Some(dflt) || Name(n) in KeysOf(o)
    ensures Some(SuppliedOr(o, Name(n), dflt)) == res.Expected(o, n)
  {
  }

  /**
   * Over the sample class, options that use only the four parameter names and
   * supply `mandatory` resolve to the supplied values, with the declared
   * defaults for the optional parameters left out.
   */
  lemma SampleResolves(res: ConstructorResolver, o: PhpArray, kM: string, kA: string, kB: string, kS: string)
    requires res.Valid() && res.reflected == SampleClass()
    requires kM == "mandatory" && kA == "optionalA" && kB == "optionalB" && kS == "optionalSnake"
    requires KeysOf(o) <= {Name(kM), Name(kA), Name(kB), Name(kS)}
    requires Name(kM) in KeysOf(o)
    ensures res.Resolve(o) == Ok([SuppliedOr(o, Name(kM), Null), SuppliedOr(o, Name(kA), Str("AAA")),
                                  SuppliedOr(o, Name(kB), Str("BBB")), SuppliedOr(o, Name(kS), Str("snake"))])
  {
    SampleShape(res, kM, kA, kB, kS);
    ResolveFourKeys(res, o, kM, kA, kB, kS, Str("AAA"), Str("BBB"), Str("snake"));
  }

  /** The four fixture keys, stated of variables, are pairwise different. */
  lemma FixtureNamesDistinct(kM: string, kA: string, kB: string, kS: string)
    requires kM == "mandatory" && kA == "optionalA" && kB == "optionalB" && kS == "optionalSnake"
    ensures kM != kA && kM != kB && kM != kS && kA != kB && kA != kS && kB != kS
  {
    FixtureKeysDistinct([kM, kA, kB, kS]);
    assert [kM, kA, kB, kS][1] == kA && [kM, kA, kB, kS][2] == kB;
  }

  /** The keys of a four-entry array. */
  lemma Keys4(a: (Key, Value), b: (Key, Value), c: (Key, Value), d: (Key, Value))
    ensures KeysOf([a, b, c, d]) == {a.0, b.0, c.0, d.0}
  {
    var o := [a, b, c, d];
    forall k | k in KeysOf(o) ensures k in {a.0, b.0, c.0, d.0} {
      var i :| 0 <= i < 4 && o[i].0 == k;
      if i == 0 {} else if i == 1 {} else if i == 2 {} else {}
    }
    assert o[0].0 == a.0 && o[1].0 == b.0 && o[2].0 == c.0 && o[3].0 == d.0;
  }

  /** The keys and lookups of a four-entry array with distinct keys. */
  lemma Entries4(a: (Key, Value), b: (Key, Value), c: (Key, Value), d: (Key, Value))
    requires a.0 != b.0 && a.0 != c.0 && a.0 != d.0 && b.0 != c.0 && b.0 != d.0 && c.0 != d.0
    ensures KeysOf([a, b, c, d]) == {a.0, b.0, c.0, d.0}
    ensures Lookup([a, b, c, d], a.0) == Some(a.1) && Lookup([a, b, c, d], b.0) == Some(b.1)
    ensures Lookup([a, b, c, d], c.0) == Some(c.1) && Lookup([a, b, c, d], d.0) == Some(d.1)
  {
    var o := [a, b, c, d];
    assert o[1..] == [b, c, d] && o[1..][1..] == [c, d] && o[1..][1..][1..] == [d];
    Keys4(a, b, c, d);
  }

  /** The keys of a two-entry array. */
  lemma Keys2(a: (Key, Value), b: (Key, Value))
    ensures KeysOf([a, b]) == {a.0, b.0}
  {
    var o := [a, b];
    forall k | k in KeysOf(o) ensures k in {a.0, b.0} {
      var i :| 0 <= i < 2 && o[i].0 == k;
      if i == 0 {} else {}
    }
    assert o[0].0 == a.0 && o[1].0 == b.0;
  }

  /** The keys and lookups of a two-entry array with distinct keys. */
  lemma Entries2(a: (Key, Value), b: (Key, Value))
    requires a.0 != b.0
    ensures KeysOf([a, b]) == {a.0, b.0}
    ensures Lookup([a, b], a.0) == Some(a.1) && Lookup([a, b], b.0) == Some(b.1)
  {
    assert [a, b][1..] == [b];
    Keys2(a, b);
  }

  /** The keys and lookup of a one-entry array. */
  lemma Entries1(a: (Key, Value))
    ensures KeysOf([a]) == {a.0}
    ensures Lookup([a], a.0) == Some(a.1)
  {
    assert [a][0].0 == a.0;
  }

  /** `{optionalB, optionalA, mandatory, optionalSnake}` resolves to the four values in declaration order. */
  lemma ResolveFullOptions(res: ConstructorResolver, kM: string, kA: string, kB: string, kS: string)
    requires res.Valid() && res.reflected == SampleClass()
    requires kM == "mandatory" && kA == "optionalA" && kB == "optionalB" && kS == "optionalSnake"
    ensures res.Resolve([(Name(kB), Str("there")), (Name(kA), Str("hello")),
                         (Name(kM), Str("someValue")), (Name(kS), Str("slither"))])
            == Ok([Str("someValue"), Str("hello"), Str("there"), Str("slither")])
  {
    FixtureNamesDistinct(kM, kA, kB, kS);
    Entries4((Name(kB), Str("there")), (Name(kA), Str("hello")), (Name(kM), Str("someValue")), (Name(kS), Str("slither")));
    SampleResolves(res, [(Name(kB), Str("there")), (Name(kA), Str("hello")), (Name(kM), Str("someValue")), (Name(kS), Str("slither"))], kM, kA, kB, kS);
  }

  /** `{mandatory, optionalA}` takes the declared default for `optionalB` and `optional_snake`. */
  lemma ResolvePartialOptions(res: ConstructorResolver, kM: string, kA: string, kB: string, kS: string)
    requires res.Valid() && res.reflected == SampleClass()
    requires kM == "mandatory" && kA == "optionalA" && kB == "optionalB" && kS == "optionalSnake"
    ensures res.Resolve([(Name(kM), Str("someValue")), (Name(kA), Str("hello"))])
            == Ok([Str("someValue"), Str("hello"), Str("BBB"), Str("snake")])
  {
    FixtureNamesDistinct(kM, kA, kB, kS);
    Entries2((Name(kM), Str("someValue")), (Name(kA), Str("hello")));
    SampleResolves(res, [(Name(kM), Str("someValue")), (Name(kA), Str("hello"))], kM, kA, kB, kS);
  }

  /** `{mandatory}` alone takes every declared default. */
  lemma ResolveMandatoryOnly(res: ConstructorResolver, kM: string, kA: string, kB: string, kS: string)
    requires res.Valid() && res.reflected == SampleClass()
    requires kM == "mandatory" && kA == "optionalA" && kB == "optionalB" && kS == "optionalSnake"
    ensures res.Resolve([(Name(kM), Str("someValue"))]) == Ok([Str("someValue"), Str("AAA"), Str("BBB"), Str("snake")])
  {
    FixtureNamesDistinct(kM, kA, kB, kS);
    Entries1((Name(kM), Str("someValue")));
    SampleResolves(res, [(Name(kM), Str("someValue"))], kM, kA, kB, kS);
  }

  /** `hashToArgsArray` puts a shuffled hash of all four keys into constructor order. */
  lemma HashToArgsArrayOrders(res: ConstructorResolver, kM: string, kA: string, kB: string, kS: string)
    requires res.Valid() && res.reflected == SampleClass()
    requires kM == "mandatory" && kA == "optionalA" && kB == "optionalB" && kS == "optionalSnake"
    ensures res.HashToArgsArray([(Name(kB), Str("there")), (Name(kA), Str("hello")),
                                 (Name(kS), Str("slither")), (Name(kM), Str("someValue"))])
            == [Str("someValue"), Str("hello"), Str("there"), Str("slither")]
  {
    FixtureNamesDistinct(kM, kA, kB, kS);
    var h := [(Name(kB), Str("there")), (Name(kA), Str("hello")), (Name(kS), Str("slither")), (Name(kM), Str("someValue"))];
    Entries4(h[0], h[1], h[2], h[3]);
    SampleShape(res, kM, kA, kB, kS);
    HashFourKeys(res, h, kM, kA, kB, kS);
  }

  /** Over a table of four keys, the reordering reads the hash under each key in turn. */
  lemma HashFourKeys(res: ConstructorResolver, h: PhpArray, kM: string, kA: string, kB: string, kS: string)
    requires res.constructorArgs.keys == [kM, kA, kB, kS]
    ensures res.HashToArgsArray(h) == [ValueOrNull(Lookup(h, Name(kM))), ValueOrNull(Lookup(h, Name(kA))),
                                       ValueOrNull(Lookup(h, Name(kB))), ValueOrNull(Lookup(h, Name(kS)))]
  {
    var r := res.HashToArgsArray(h);
    var ks := res.constructorArgs.keys;
    assert ks[0] == kM && ks[1] == kA && ks[2] == kB && ks[3] == kS;
    assert r == [r[0], r[1], r[2], r[3]];
  }

  /**
   * Over a table of four keys of which only the first is mandatory, options that
   * use only the other three are rejected as missing exactly the first.
   */
  lemma MissingFirstKey(res: ConstructorResolver, o: PhpArray, kM: string, kA: string, kB: string, kS: string)
    requires res.constructorArgs.keys == [kM, kA, kB, kS]
    requires forall n :: n in res.constructorArgs.byKey <==> n == kM || n == kA || n == kB || n == kS
    requires kM in res.constructorArgs.byKey && res.constructorArgs.byKey[kM].IsMandatory()
    requires kA in res.constructorArgs.byKey && !res.constructorArgs.byKey[kA].IsMandatory()
    requires kB in res.constructorArgs.byKey && !res.constructorArgs.byKey[kB].IsMandatory()
    requires kS in res.constructorArgs.byKey && !res.constructorArgs.byKey[kS].IsMandatory()
    requires KeysOf(o) <= {Name(kA), Name(kB), Name(kS)}
    requires Name(kM) !in KeysOf(o)
    ensures res.Resolve(o) == Err(MissingOptions({kM}))
  {
    var t := res.constructorArgs;
    assert res.OnlyKnownKeys(o) by {
      forall k | k in KeysOf(o) ensures res.IsDefined(k) {
        assert k == Name(kA) || k == Name(kB) || k == Name(kS);
      }
    }
    assert !res.MandatorySupplied(o);
    ResolveMissing(res, o);
    var m := res.Resolve(o).error.missing;
    forall n ensures n in m <==> n == kM {
      if n in m {
        assert n == kM || n == kA || n == kB || n == kS;
      }
    }
    assert m == {kM};
  }

  /** The sample class rejects options without `mandatory`; the fixture's three such rows. */
  lemma ResolveWithMissingOptions(res: ConstructorResolver, kM: string, kA: string, kB: string, kS: string)
    requires res.Valid() && res.reflected == SampleClass()
    requires kM == "mandatory" && kA == "optionalA" && kB == "optionalB" && kS == "optionalSnake"
    ensures res.Resolve([]) == Err(MissingOptions({kM}))
    ensures res.Resolve([(Name(kB), Str("BBB"))]) == Err(MissingOptions({kM}))
    ensures res.Resolve([(Name(kB), Str("there")), (Name(kA), Str("hello"))]) == Err(MissingOptions({kM}))
  {
    FixtureNamesDistinct(kM, kA, kB, kS);
    SampleShape(res, kM, kA, kB, kS);
    assert KeysOf([]) == {};
    MissingFirstKey(res, [], kM, kA, kB, kS);
    Entries1((Name(kB), Str("BBB")));
    MissingFirstKey(res, [(Name(kB), Str("BBB"))], kM, kA, kB, kS);
    Keys2((Name(kB), Str("there")), (Name(kA), Str("hello")));
    MissingFirstKey(res, [(Name(kB), Str("there")), (Name(kA), Str("hello"))], kM, kA, kB, kS);
  }

  /** Options whose undefined keys are exactly `u`, a non-empty set, are rejected as naming `u`. */
  lemma UndefinedExactly(res: ConstructorResolver, o: PhpArray, u: set<Key>)
    requires u != {}
    requires forall k :: k in u <==> k in KeysOf(o) && !res.IsDefined(k)
    ensures res.Resolve(o) == Err(UndefinedOptions(u))
  {
    var k :| k in u;
    assert !res.OnlyKnownKeys(o);
    ResolveUndefined(res, o);
    assert res.Resolve(o).error.undefined == u;
  }

  /** A list literal's integer key names no parameter: `array('ABC')` is rejected as undefined. */
  lemma ResolveListLiteral(res: ConstructorResolver)
    ensures res.Resolve([(Index(0), Str("ABC"))]) == Err(UndefinedOptions({Index(0)}))
  {
    Entries1((Index(0), Str("ABC")));
    UndefinedExactly(res, [(Index(0), Str("ABC"))], {Index(0)});
  }

  /**
   * Over a table of four keys, options made of some of those keys and a
   * non-empty set `u` of other keys are rejected as naming exactly `u`.
   */
  lemma UndefinedBesideKnown(res: ConstructorResolver, o: PhpArray, kM: string, kA: string, kB: string, kS: string,
                             known: set<Key>, u: set<Key>)
    requires forall n :: n in res.constructorArgs.byKey <==> n == kM || n == kA || n == kB || n == kS
    requires KeysOf(o) == known + u
    requires known <= {Name(kM), Name(kA), Name(kB), Name(kS)}
    requires u != {}
    requires forall k :: k in u ==> k != Name(kM) && k != Name(kA) && k != Name(kB) && k != Name(kS)
    ensures res.Resolve(o) == Err(UndefinedOptions(u))
  {
    forall k ensures k in u <==> k in KeysOf(o) && !res.IsDefined(k) {
      if k in known {
        assert k == Name(kM) || k == Name(kA) || k == Name(kB) || k == Name(kS);
      }
    }
    UndefinedExactly(res, o, u);
  }

  /** Two unknown names are both reported. */
  lemma ResolveAllInvalid(res: ConstructorResolver, kX: string, kY: string)
    requires res.Valid() && res.reflected == SampleClass()
    requires kX == "someInvalidOptionA" && kY == "someInvalidOptionB"
    ensures res.Resolve([(Name(kX), Str("abc")), (Name(kY), Str("def"))]) == Err(UndefinedOptions({Name(kX), Name(kY)}))
  {
    var kM, kA, kB, kS := "mandatory", "optionalA", "optionalB", "optionalSnake";
    SampleShape(res, kM, kA, kB, kS);
    assert |kX| == 18 && |kY| == 18 && |kM| == 9 && |kA| == 9 && |kB| == 9 && |kS| == 13;
    assert kX[17] != kY[17];
    Keys2((Name(kX), Str("abc")), (Name(kY), Str("def")));
    UndefinedBesideKnown(res, [(Name(kX), Str("abc")), (Name(kY), Str("def"))], kM, kA, kB, kS, {}, {Name(kX), Name(kY)});
  }

  /** Among three known names, the one unknown name is the only one reported. */
  lemma ResolveSomeInvalid(res: ConstructorResolver, kM: string, kA: string, kB: string, kS: string, kI: string)
    requires res.Valid() && res.reflected == SampleClass()
    requires kM == "mandatory" && kA == "optionalA" && kB == "optionalB" && kS == "optionalSnake"
    requires kI == "additionalInvalid"
    ensures res.Resolve([(Name(kB), Str("there")), (Name(kA), Str("hello")),
                         (Name(kM), Str("dsadsa")), (Name(kI), Str("some unknow param"))])
            == Err(UndefinedOptions({Name(kI)}))
  {
    FixtureNamesDistinct(kM, kA, kB, kS);
    SampleShape(res, kM, kA, kB, kS);
    assert |kI| == 17 && |kM| == 9 && |kA| == 9 && |kB| == 9 && |kS| == 13;
    var o := [(Name(kB), Str("there")), (Name(kA), Str("hello")), (Name(kM), Str("dsadsa")), (Name(kI), Str("some unknow param"))];
    Keys4(o[0], o[1], o[2], o[3]);
    UndefinedBesideKnown(res, o, kM, kA, kB, kS, {Name(kB), Name(kA), Name(kM)}, {Name(kI)});
  }
}
