/**
 * What reflection tells the resolver about a class: its name and, when it
 * declares one, its constructor's parameters in declaration order. The table
 * the resolver keeps maps each parameter's camel-cased name to the parameter.
 */
module Signature {
  import opened Wrappers
  import opened PhpValues
  import opened Naming

  /** A constructor parameter; `default` is `Some` exactly when the parameter is optional. */
  datatype Param = Param(name: string, default: Option<Value>)
  {
    predicate IsMandatory() { default.None? }
  }

  /** A reflected class; `ctor` is `None` when the class declares no constructor. */
  datatype ReflectedClass = ReflectedClass(name: string, ctor: Option<seq<Param>>)

  /** The constructor's parameters; a class without a constructor has none. */
  function ConstructorParams(c: ReflectedClass): seq<Param>
  {
    match c.ctor
    case None => []
    case Some(ps) => ps
  }

  /**
   * The associative array of constructor arguments: `keys` is its key order and
   * `byKey` its contents.
   */
  datatype ArgTable = ArgTable(keys: seq<string>, byKey: map<string, Param>)

  ghost predicate Distinct(s: seq<string>)
  {
    forall i, j :: 0 <= i < j < |s| ==> s[i] != s[j]
  }

  /** The key order lists every key of the table exactly once. */
  ghost predicate WellFormed(t: ArgTable)
  {
    && Distinct(t.keys)
    && forall k :: k in t.byKey <==> k in t.keys
  }

  /**
   * `$table[snakeToCamelCase($p->getName())] = $p`: the key ends up holding `p`,
   * and the key order grows by at most the one new key.
   */
  function Insert(t: ArgTable, p: Param): (r: ArgTable)
    ensures SnakeToCamel(p.name) in r.byKey && r.byKey[SnakeToCamel(p.name)] == p
    ensures |t.keys| <= |r.keys| <= |t.keys| + 1
  {
    var k := SnakeToCamel(p.name);
    ArgTable(if k in t.byKey then t.keys else t.keys + [k], t.byKey[k := p])
  }

  /**
   * The table built by inserting the parameters one after the other, in
   * declaration order: it has at most one key per parameter.
   */
  function BuildTable(ps: seq<Param>): (t: ArgTable)
    ensures |t.keys| <= |ps|
    decreases |ps|
  {
    if ps == [] then ArgTable([], map[])
    else Insert(BuildTable(ps[..|ps| - 1]), ps[|ps| - 1])
  }

  /** Inserting keeps every existing key in its place and the key order in step with the contents. */
  lemma InsertWellFormed(t: ArgTable, p: Param)
    requires WellFormed(t)
    ensures Insert(t, p).keys[..|t.keys|] == t.keys
    ensures WellFormed(Insert(t, p))
  {
  }

  /** The table's key order lists each of its keys exactly once. */
  lemma {:induction false} BuildTableWellFormed(ps: seq<Param>)
    ensures WellFormed(BuildTable(ps))
    decreases |ps|
  {
    if ps != [] {
      BuildTableWellFormed(ps[..|ps| - 1]);
      InsertWellFormed(BuildTable(ps[..|ps| - 1]), ps[|ps| - 1]);
    }
  }

  /** No two parameters share a camel-cased name. */
  ghost predicate DistinctCamelNames(ps: seq<Param>)
  {
    forall i, j :: 0 <= i < j < |ps| ==> SnakeToCamel(ps[i].name) != SnakeToCamel(ps[j].name)
  }

  /** Every key of the table is the camel-cased name of some parameter, here `ps[i]`. */
  lemma {:induction false} BuildTableKeySource(ps: seq<Param>, k: string) returns (i: nat)
    requires k in BuildTable(ps).byKey
    ensures i < |ps| && SnakeToCamel(ps[i].name) == k
  {
    var init := ps[..|ps| - 1];
    if SnakeToCamel(ps[|ps| - 1].name) == k {
      i := |ps| - 1;
    } else {
      i := BuildTableKeySource(init, k);
      assert init[i] == ps[i];
    }
  }

  /** A key is bound to the LAST parameter whose camel-cased name it is. */
  lemma {:induction false} BuildTableLastWins(ps: seq<Param>, i: nat)
    requires i < |ps|
    requires forall j :: i < j < |ps| ==> SnakeToCamel(ps[j].name) != SnakeToCamel(ps[i].name)
    ensures SnakeToCamel(ps[i].name) in BuildTable(ps).byKey
    ensures BuildTable(ps).byKey[SnakeToCamel(ps[i].name)] == ps[i]
  {
    if i < |ps| - 1 {
      var init := ps[..|ps| - 1];
      assert init[i] == ps[i];
      forall j | i < j < |init| ensures SnakeToCamel(init[j].name) != SnakeToCamel(init[i].name) {
        assert init[j] == ps[j];
      }
      BuildTableLastWins(init, i);
    }
  }

  /** With distinct camel-cased names, each parameter appends its own key. */
  lemma {:induction false} BuildTableKeysInOrder(ps: seq<Param>)
    requires DistinctCamelNames(ps)
    ensures |BuildTable(ps).keys| == |ps|
    ensures forall i :: 0 <= i < |ps| ==> BuildTable(ps).keys[i] == SnakeToCamel(ps[i].name)
  {
    if ps != [] {
      var init := ps[..|ps| - 1];
      var last := ps[|ps| - 1];
      assert DistinctCamelNames(init) by {
        forall i, j | 0 <= i < j < |init| ensures SnakeToCamel(init[i].name) != SnakeToCamel(init[j].name) {
          assert init[i] == ps[i] && init[j] == ps[j];
        }
      }
      BuildTableKeysInOrder(init);
      var t0 := BuildTable(init);
      var k := SnakeToCamel(last.name);
      if k in t0.byKey {
        var j := BuildTableKeySource(init, k);
        assert false;
      }
      var t := BuildTable(ps);
      assert t == Insert(t0, last);
      assert t.keys == t0.keys + [k];
      forall i | 0 <= i < |ps| ensures t.keys[i] == SnakeToCamel(ps[i].name) {
        if i < |init| {
          assert init[i] == ps[i];
        }
      }
    }
  }

  /**
   * With distinct camel-cased names the table has exactly one entry per parameter,
   * keyed by its camel-cased name and held in declaration order.
   */
  lemma BuildTableInOrder(ps: seq<Param>)
    requires DistinctCamelNames(ps)
    ensures |BuildTable(ps).keys| == |ps|
    ensures forall i :: 0 <= i < |ps| ==> BuildTable(ps).keys[i] == SnakeToCamel(ps[i].name)
    ensures forall i :: 0 <= i < |ps| ==>
              SnakeToCamel(ps[i].name) in BuildTable(ps).byKey && BuildTable(ps).byKey[SnakeToCamel(ps[i].name)] == ps[i]
  {
    BuildTableKeysInOrder(ps);
    forall i | 0 <= i < |ps|
      ensures SnakeToCamel(ps[i].name) in BuildTable(ps).byKey && BuildTable(ps).byKey[SnakeToCamel(ps[i].name)] == ps[i]
    {
      assert forall j :: i < j < |ps| ==> SnakeToCamel(ps[j].name) != SnakeToCamel(ps[i].name);
      BuildTableLastWins(ps, i);
    }
  }
}
