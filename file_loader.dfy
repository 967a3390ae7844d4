/**
 * The pure helpers every configuration file loader shares: the check of a
 * path's extension against the loader's list of valid extensions, and the
 * extraction of one top-level section of a parsed configuration array.
 */
module FileLoading {
  import opened Wrappers
  import opened PhpValues

  /** `s` without the run of `c` it ends with. */
  function TrimTrailing(s: string, c: char): string
  {
    if s != [] && s[|s| - 1] == c then TrimTrailing(s[..|s| - 1], c) else s
  }

  /** Trimming keeps a prefix that does not end in `c` and drops only `c`s. */
  lemma {:induction false} TrimTrailingIsPrefix(s: string, c: char)
    ensures var r := TrimTrailing(s, c);
            |r| <= |s| && r == s[..|r|] && (r == [] || r[|r| - 1] != c) &&
            forall i :: |r| <= i < |s| ==> s[i] == c
  {
    if s != [] && s[|s| - 1] == c {
      TrimTrailingIsPrefix(s[..|s| - 1], c);
    }
  }

  /** The characters of `s` after its last `c`, or all of `s` when it holds no `c`. */
  function AfterLast(s: string, c: char): string
  {
    if s == [] then []
    else if s[|s| - 1] == c then []
    else AfterLast(s[..|s| - 1], c) + [s[|s| - 1]]
  }

  /**
   * What follows the last `c` is the longest suffix free of `c`: it holds no
   * `c`, and when it is not all of `s` a `c` comes just before it.
   */
  lemma {:induction false} AfterLastIsSuffix(s: string, c: char)
    ensures var r := AfterLast(s, c);
            |r| <= |s| && r == s[|s| - |r|..] && c !in r && (|r| < |s| ==> s[|s| - |r| - 1] == c)
  {
    if s != [] && s[|s| - 1] != c {
      var s' := s[..|s| - 1];
      AfterLastIsSuffix(s', c);
      var r' := AfterLast(s', c);
      assert AfterLast(s, c) == r' + [s[|s| - 1]];
      assert s[|s| - |r'| - 1..] == s'[|s'| - |r'|..] + [s[|s| - 1]];
    }
  }

  /**
   * The last component of a path, as PHP's `basename`: trailing slashes are
   * ignored. It holds no slash, and a path without a slash is its own last
   * component.
   */
  function Basename(path: string): (b: string)
    ensures '/' !in b
    ensures '/' !in path ==> b == path
  {
    var t := TrimTrailing(path, '/');
    AfterLastIsSuffix(t, '/');
    if '/' in path then AfterLast(t, '/')
    else
      assert [] + path == path;
      AfterLastAppend([], path, '/');
      AfterLast(t, '/')
  }

  /**
   * The extension of a path, as `pathinfo($path, PATHINFO_EXTENSION)`: what
   * follows the last dot of the last component, or empty when the last
   * component has no dot. An extension holds neither a dot nor a slash.
   */
  function Extension(path: string): (e: string)
    ensures '.' !in e && '/' !in e
  {
    var b := Basename(path);
    if '.' in b then
      var e := AfterLast(b, '.');
      AfterLastIsSuffix(b, '.');
      SuffixWithout(b, |b| - |e|, '/');
      e
    else []
  }

  /**
   * `validateExtension`: the path's extension is one of the valid extensions. A
   * path without a dot is valid exactly when the empty extension is listed.
   */
  function ValidateExtension(path: string, validExtensions: seq<string>): (valid: bool)
    ensures '.' !in path ==> (valid <==> [] in validExtensions)
  {
    if '.' in path then Extension(path) in validExtensions
    else
      NoDotNoExtension(path);
      Extension(path) in validExtensions
  }

  /** Characters other than `c` appended to `x` are appended to what follows its last `c`. */
  lemma {:induction false} AfterLastAppend(x: string, y: string, c: char)
    requires c !in y
    ensures AfterLast(x + y, c) == AfterLast(x, c) + y
    decreases |y|
  {
    if y == [] {
      assert x + y == x;
    } else {
      var y' := y[..|y| - 1];
      var s := x + y;
      assert s[..|s| - 1] == x + y';
      assert s[|s| - 1] == y[|y| - 1];
      assert c !in y' by {
        forall i | 0 <= i < |y'| ensures y'[i] != c {
          assert y'[i] == y[i];
        }
      }
      assert s != [] && s[|s| - 1] != c;
      assert AfterLast(s, c) == AfterLast(x + y', c) + [y[|y| - 1]];
      AfterLastAppend(x, y', c);
      assert y == y' + [y[|y| - 1]];
      assert AfterLast(x, c) + y' + [y[|y| - 1]] == AfterLast(x, c) + y;
    }
  }

  /** What follows the last `c` of `a + [c] + e`, where `e` holds no `c`, is `e`. */
  lemma AfterLastSuffix(a: string, c: char, e: string)
    requires c !in e
    ensures AfterLast(a + [c] + e, c) == e
  {
    var x := a + [c];
    assert x[|x| - 1] == c;
    AfterLastAppend(x, e, c);
  }

  /**
   * A path that ends in a dot and a non-empty run of characters free of dots
   * and slashes has that run as its extension.
   */
  lemma DottedSuffixIsExtension(stem: string, e: string)
    requires e != [] && '.' !in e && '/' !in e
    ensures Extension(stem + "." + e) == e
  {
    var p := stem + "." + e;
    assert p[|p| - 1] == e[|e| - 1];
    assert TrimTrailing(p, '/') == p;
    var tail := ['.'] + e;
    assert '/' !in tail;
    assert p == stem + tail;
    AfterLastAppend(stem, tail, '/');
    var b := AfterLast(stem, '/') + tail;
    assert Basename(p) == b;
    assert b == AfterLast(stem, '/') + ['.'] + e;
    assert '.' in b by {
      assert b[|AfterLast(stem, '/')|] == '.';
    }
    AfterLastSuffix(AfterLast(stem, '/'), '.', e);
  }

  /** A suffix of a string without `c` has no `c` either. */
  lemma SuffixWithout(s: string, k: nat, c: char)
    requires k <= |s| && c !in s
    ensures c !in s[k..]
  {
    forall i | 0 <= i < |s| - k ensures s[k..][i] != c {
      assert s[k..][i] == s[k + i];
    }
  }

  /** When `s` holds a `c`, what follows its last `c` is shorter than `s`. */
  lemma {:induction false} AfterLastShorter(s: string, c: char)
    requires c in s
    ensures |AfterLast(s, c)| < |s|
  {
    if s[|s| - 1] != c {
      var s' := s[..|s| - 1];
      assert c in s' by {
        var i :| 0 <= i < |s| && s[i] == c;
        assert s'[i] == s[i];
      }
      AfterLastShorter(s', c);
    }
  }

  /**
   * A non-empty extension is what follows the last dot of the path's last
   * component, and that component holds no slash.
   */
  lemma ExtensionIsDottedSuffix(path: string)
    requires Extension(path) != []
    ensures var b := Basename(path); var e := Extension(path);
            '/' !in b && |e| < |b| && b[|b| - |e| - 1] == '.' && b[|b| - |e|..] == e
  {
    var b := Basename(path);
    var e := Extension(path);
    AfterLastIsSuffix(TrimTrailing(path, '/'), '/');
    assert '.' in b;
    AfterLastIsSuffix(b, '.');
    AfterLastShorter(b, '.');
    var r := AfterLast(b, '.');
    assert b[|b| - |r| - 1] == '.';
    assert e == r;
  }

  /** A path without a dot has the empty extension. */
  lemma NoDotNoExtension(path: string)
    requires '.' !in path
    ensures Extension(path) == []
  {
    var t := TrimTrailing(path, '/');
    var b := Basename(path);
    TrimTrailingIsPrefix(path, '/');
    AfterLastIsSuffix(t, '/');
    assert '.' !in b by {
      forall i | 0 <= i < |b| ensures b[i] != '.' {
        assert b[i] == t[|t| - |b| + i] == path[|t| - |b| + i];
      }
    }
  }

  /** A path ending in `.e`, with `e` a plain extension, is valid exactly when `e` is listed. */
  lemma ValidateDottedSuffix(stem: string, e: string, validExtensions: seq<string>)
    requires e != [] && '.' !in e && '/' !in e
    ensures ValidateExtension(stem + "." + e, validExtensions) <==> e in validExtensions
  {
    DottedSuffixIsExtension(stem, e);
  }

  /**
   * `getSectionOf`: the value under the section key when the section is not
   * empty and is a key of the array, and the whole array otherwise. A present
   * section yields a value paired with it in the array, the only one when the
   * keys are distinct; an empty section, or one no entry holds, yields the
   * array itself.
   */
  function GetSectionOf(config: PhpArray, section: string): (r: Value)
    ensures section != [] && Name(section) in KeysOf(config) ==> (Name(section), r) in config
    ensures DistinctKeys(config) && section != [] ==> forall v :: (Name(section), v) in config ==> r == v
    ensures (section == [] || forall i :: 0 <= i < |config| ==> config[i].0 != Name(section)) ==> r == Arr(config)
  {
    LookupFindsAll(config, Name(section));
    if section != [] && Name(section) in KeysOf(config) then Lookup(config, Name(section)).value
    else Arr(config)
  }

  /** With `test` and `php` valid, the two paths with a listed extension are accepted. */
  lemma ListedExtensionsAccepted(validExtensions: seq<string>)
    requires validExtensions == ["test", "php"]
    ensures ValidateExtension("hello/world.test", validExtensions)
    ensures ValidateExtension("hello/world.php", validExtensions)
  {
    assert "hello/world.test" == "hello/world" + "." + "test";
    ValidateDottedSuffix("hello/world", "test", validExtensions);
    assert "hello/world.php" == "hello/world" + "." + "php";
    ValidateDottedSuffix("hello/world", "php", validExtensions);
  }

  /** With `test` and `php` valid, an unlisted extension, no extension and the empty path are rejected. */
  lemma OtherPathsRejected(validExtensions: seq<string>)
    requires validExtensions == ["test", "php"]
    ensures !ValidateExtension("hello/world.jpeg", validExtensions)
    ensures !ValidateExtension("hello/world", validExtensions)
    ensures !ValidateExtension("", validExtensions)
  {
    assert "hello/world.jpeg" == "hello/world" + "." + "jpeg";
    ValidateDottedSuffix("hello/world", "jpeg", validExtensions);
    assert "jpeg"[0] != "test"[0];
  }

  /** A present section yields its sub-array. */
  lemma GetSectionOfNested()
    ensures GetSectionOf([(Name("a"), Arr([(Name("aa"), Str("AA")), (Name("ab"), Str("AB"))])),
                          (Name("b"), Arr([(Name("ba"), Str("BA")), (Name("bb"), Str("BB"))]))], "b")
            == Arr([(Name("ba"), Str("BA")), (Name("bb"), Str("BB"))])
  {
    var c := [(Name("a"), Arr([(Name("aa"), Str("AA")), (Name("ab"), Str("AB"))])),
              (Name("b"), Arr([(Name("ba"), Str("BA")), (Name("bb"), Str("BB"))]))];
    assert c[1].0 == Name("b");
    assert c[1..] == [c[1]];
  }

  /** An absent section and the empty section both yield the whole array. */
  lemma GetSectionOfFallback()
    ensures GetSectionOf([(Name("a"), Str("A")), (Name("b"), Str("B"))], "c") == Arr([(Name("a"), Str("A")), (Name("b"), Str("B"))])
    ensures GetSectionOf([(Name("a"), Str("A")), (Name("b"), Str("B"))], "") == Arr([(Name("a"), Str("A")), (Name("b"), Str("B"))])
  {
    var c := [(Name("a"), Str("A")), (Name("b"), Str("B"))];
    assert "c"[0] != "a"[0] && "c"[0] != "b"[0];
  }
}
