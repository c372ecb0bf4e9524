/** The order Go's `<` and SQLite's default collation put on strings: character by character,
    a proper prefix first. (On valid UTF-8, byte order and code-point order coincide.) */
module TextOrder {

  predicate Less(a: string, b: string)
  {
    if b == "" then false
    else if a == "" then true
    else if a[0] != b[0] then a[0] < b[0]
    else Less(a[1..], b[1..])
  }

  lemma {:induction false} Trichotomy(a: string, b: string)
    ensures (if Less(a, b) then 1 else 0) + (if a == b then 1 else 0) + (if Less(b, a) then 1 else 0) == 1
  {
    if a != "" && b != "" && a[0] == b[0] {
      Trichotomy(a[1..], b[1..]);
      assert a[1..] == b[1..] ==> a == [a[0]] + a[1..] == b;
    }
  }

  lemma {:induction false} Transitive(a: string, b: string, c: string)
    requires Less(a, b) && Less(b, c)
    ensures Less(a, c)
  {
    if a != "" && a[0] == b[0] && b[0] == c[0] {
      Transitive(a[1..], b[1..], c[1..]);
    }
  }

  /** A common prefix does not matter. */
  lemma {:induction false} CommonPrefix(p: string, a: string, b: string)
    ensures Less(p + a, p + b) <==> Less(a, b)
  {
    if p == "" {
      assert p + a == a && p + b == b;
    } else {
      CommonPrefix(p[1..], a, b);
      assert (p + a)[1..] == p[1..] + a && (p + b)[1..] == p[1..] + b;
    }
  }

  /** `a` comes before everything that properly extends it. */
  lemma PrefixFirst(a: string, tail: string)
    requires tail != ""
    ensures Less(a, a + tail)
  {
    CommonPrefix(a, "", tail);
    assert a + "" == a;
  }

  /** Two different strings, neither a prefix of the other, compare the same however they go on. */
  lemma {:induction false} DecidedEarly(a: string, b: string, x: string, y: string)
    requires Less(a, b) && !(a <= b)
    ensures Less(a + x, b + y)
  {
    if a[0] == b[0] {
      assert a[1..] <= b[1..] ==> a <= b;
      DecidedEarly(a[1..], b[1..], x, y);
      assert (a + x)[1..] == a[1..] + x && (b + y)[1..] == b[1..] + y;
    }
  }

  /** When `a` is a proper prefix of `b`, the next character of `b` against that of the
      continuation of `a` decides. */
  lemma PrefixDecided(a: string, b: string, x: string, y: string)
    requires a < b && x != "" && x[0] != b[|a|]
    ensures Less(a + x, b + y) <==> x[0] < b[|a|]
  {
    var rest := b[|a|..] + y;
    assert b + y == a + rest;
    CommonPrefix(a, x, rest);
  }
}
