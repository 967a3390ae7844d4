/**
 * PHP arrays as they reach the loaders and the resolver: ordered lists of
 * key/value pairs whose keys are strings or integers.
 */
module PhpValues {
  import opened Wrappers

  /** An array key. A list literal such as `array('ABC')` stores its element under `Index(0)`. */
  datatype Key = Name(s: string) | Index(i: int)

  /** The values a configuration array can hold. */
  datatype Value =
    | Null
    | Bool(b: bool)
    | Int(i: int)
    | Str(s: string)
    | Arr(entries: seq<(Key, Value)>)

  /** An (ordered) PHP array. */
  type PhpArray = seq<(Key, Value)>

  /** Every key of a PHP array occurs once. */
  ghost predicate DistinctKeys(a: PhpArray)
  {
    forall i, j :: 0 <= i < j < |a| ==> a[i].0 != a[j].0
  }

  function KeysOf(a: PhpArray): (ks: set<Key>)
    ensures forall k :: k in ks <==> exists i :: 0 <= i < |a| && a[i].0 == k
  {
    set i | 0 <= i < |a| :: a[i].0
  }

  /** `$a[$k]` when `array_key_exists($k, $a)`, and `None` otherwise. */
  function Lookup(a: PhpArray, k: Key): (r: Option<Value>)
    ensures r.None? <==> k !in KeysOf(a)
    ensures r.Some? ==> (k, r.value) in a
  {
    if a == [] then None
    else if a[0].0 == k then Some(a[0].1)
    else Lookup(a[1..], k)
  }

  /** In an array with distinct keys, the lookup of a key finds the one pair holding it. */
  lemma {:induction false} LookupFinds(a: PhpArray, k: Key, v: Value)
    requires DistinctKeys(a)
    requires (k, v) in a
    ensures Lookup(a, k) == Some(v)
  {
    if a[0] != (k, v) {
      assert a[0].0 != k by {
        var j :| 0 <= j < |a| && a[j] == (k, v);
        assert j != 0;
      }
      assert DistinctKeys(a[1..]) by {
        forall i, j | 0 <= i < j < |a[1..]| ensures a[1..][i].0 != a[1..][j].0 {
          assert a[1..][i] == a[i + 1] && a[1..][j] == a[j + 1];
        }
      }
      assert (k, v) in a[1..] by {
        var j :| 0 <= j < |a| && a[j] == (k, v);
        assert a[1..][j - 1] == a[j];
      }
      LookupFinds(a[1..], k, v);
    }
  }

  /**
   * The order of a PHP array's entries is irrelevant to key lookups: two arrays
   * holding the same pairs in any order have the same keys and the same lookups.
   */
  lemma LookupPermutation(a: PhpArray, b: PhpArray)
    requires DistinctKeys(a) && DistinctKeys(b)
    requires multiset(a) == multiset(b)
    ensures KeysOf(a) == KeysOf(b)
    ensures forall k :: Lookup(a, k) == Lookup(b, k)
  {
    forall p | p in a ensures p in b {
      assert p in multiset(a);
    }
    forall p | p in b ensures p in a {
      assert p in multiset(b);
    }
    forall k ensures k in KeysOf(a) <==> k in KeysOf(b) {
      if k in KeysOf(a) {
        var i :| 0 <= i < |a| && a[i].0 == k;
        assert a[i] in b;
      }
      if k in KeysOf(b) {
        var i :| 0 <= i < |b| && b[i].0 == k;
        assert b[i] in a;
      }
    }
    forall k ensures Lookup(a, k) == Lookup(b, k) {
      var r := Lookup(a, k);
      if r.Some? {
        LookupFinds(b, k, r.value);
      } else {
        assert k !in KeysOf(b);
      }
    }
  }

  /** A lookup in `a + b` finds the pair in `a` when `a` has the key, and looks in `b` otherwise. */
  lemma {:induction false} LookupAppend(a: PhpArray, b: PhpArray, k: Key)
    ensures Lookup(a + b, k) == if k in KeysOf(a) then Lookup(a, k) else Lookup(b, k)
  {
    if a == [] {
      assert a + b == b;
    } else {
      assert (a + b)[0] == a[0];
      assert (a + b)[1..] == a[1..] + b;
      if a[0].0 != k {
        LookupAppend(a[1..], b, k);
        assert k in KeysOf(a) <==> k in KeysOf(a[1..]) by {
          if k in KeysOf(a) {
            var i :| 0 <= i < |a| && a[i].0 == k;
            assert a[1..][i - 1] == a[i];
          }
          if k in KeysOf(a[1..]) {
            var i :| 0 <= i < |a[1..]| && a[1..][i].0 == k;
            assert a[i + 1] == a[1..][i];
          }
        }
      }
    }
  }

  /** `LookupAppend` for every key at once. */
  lemma LookupAppendAll(a: PhpArray, b: PhpArray)
    ensures forall k :: Lookup(a + b, k) == if k in KeysOf(a) then Lookup(a, k) else Lookup(b, k)
  {
    forall k ensures Lookup(a + b, k) == if k in KeysOf(a) then Lookup(a, k) else Lookup(b, k) {
      LookupAppend(a, b, k);
    }
  }

  /** `LookupFinds` for every value paired with `k`, stated for arrays whose keys are distinct. */
  lemma LookupFindsAll(a: PhpArray, k: Key)
    ensures DistinctKeys(a) ==> forall v :: (k, v) in a ==> Lookup(a, k) == Some(v)
  {
    if DistinctKeys(a) {
      forall v | (k, v) in a ensures Lookup(a, k) == Some(v) {
        LookupFinds(a, k, v);
      }
    }
  }

  lemma KeysOfCons(p: (Key, Value), a: PhpArray)
    ensures KeysOf([p] + a) == {p.0} + KeysOf(a)
  {
    var c := [p] + a;
    forall k | k in KeysOf(a) ensures k in KeysOf(c) {
      var i :| 0 <= i < |a| && a[i].0 == k;
      assert c[i + 1] == a[i];
    }
    forall k | k in KeysOf(c) && k != p.0 ensures k in KeysOf(a) {
      var i :| 0 <= i < |c| && c[i].0 == k;
      assert a[i - 1] == c[i];
    }
    assert c[0] == p;
  }
}
