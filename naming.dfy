/**
 * The snake_case to camelCase key function used to index constructor
 * parameters. Only its use as a key function matters to the resolver.
 */
module Naming {
  function ToUpper(c: char): char
  {
    if 'a' <= c <= 'z' then (c as int - 32) as char else c
  }

  function ToLower(c: char): char
  {
    if 'A' <= c <= 'Z' then (c as int + 32) as char else c
  }

  /** Drops underscores and upper-cases the character after each run of them (`raise` holds after one). */
  function JoinSegments(s: string, raise: bool): string
  {
    if s == [] then []
    else if s[0] == '_' then JoinSegments(s[1..], true)
    else [if raise then ToUpper(s[0]) else s[0]] + JoinSegments(s[1..], false)
  }

  /** `optional_snake` becomes `optionalSnake`; the first character is lower-cased. */
  function SnakeToCamel(s: string): string
  {
    var j := JoinSegments(s, false);
    if j == [] then [] else [ToLower(j[0])] + j[1..]
  }

  /** Characters before the first underscore pass through unchanged when no raise is pending. */
  lemma {:induction false} JoinSegmentsPlain(a: string, b: string)
    requires '_' !in a
    ensures JoinSegments(a + b, false) == a + JoinSegments(b, false)
  {
    if a == [] {
      assert a + b == b;
    } else {
      assert (a + b)[0] == a[0];
      assert (a + b)[1..] == a[1..] + b;
      JoinSegmentsPlain(a[1..], b);
    }
  }

  /** A name without underscores that starts in lower case is its own camel-cased form. */
  lemma SnakeToCamelIdentity(s: string)
    requires '_' !in s
    requires s != [] ==> ToLower(s[0]) == s[0]
    ensures SnakeToCamel(s) == s
  {
    JoinSegmentsPlain(s, []);
    assert s + [] == s;
  }
}
