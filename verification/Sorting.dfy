/** Sorting a set by a strict total order, as `ORDER BY` and `sort.Slice` do: the result is unique,
    so it does not depend on the order in which the elements come. */
module Sorting {

  type Order<!T> = (T, T) -> bool

  predicate Transits<T>(before: Order<T>, a: T, b: T, c: T)
  {
    before(a, b) && before(b, c) ==> before(a, c)
  }

  /** `before` is a strict total order on the elements. */
  ghost predicate Orders<T(!new)>(before: Order<T>, elements: set<T>)
  {
    && (forall a :: a in elements ==> !before(a, a))
    && (forall a, b :: a in elements && b in elements && a != b ==> before(a, b) || before(b, a))
    && (forall a, b, c {:trigger Transits(before, a, b, c)} ::
          a in elements && b in elements && c in elements ==> Transits(before, a, b, c))
  }

  ghost predicate IsLeast<T(!new)>(before: Order<T>, elements: set<T>, m: T)
  {
    m in elements && forall e :: e in elements && e != m ==> before(m, e)
  }

  lemma {:induction false} LeastExists<T(!new)>(before: Order<T>, elements: set<T>) returns (m: T)
    requires Orders(before, elements) && elements != {}
    ensures IsLeast(before, elements, m)
    decreases |elements|
  {
    var a :| a in elements;
    var rest := elements - {a};
    assert forall e :: e in elements ==> e == a || e in rest;
    if rest == {} {
      m := a;
    } else {
      var b := LeastExists(before, rest);
      if before(a, b) {
        m := a;
        forall e | e in elements && e != a ensures before(a, e)
        {
          assert Transits(before, a, b, e);
        }
      } else {
        m := b;
      }
    }
  }

  ghost predicate Ascending<T(!new)>(before: Order<T>, s: seq<T>)
  {
    forall i, j :: 0 <= i < j < |s| ==> before(s[i], s[j])
  }

  ghost predicate IsSorting<T(!new)>(before: Order<T>, elements: set<T>, sorted: seq<T>)
  {
    && (forall e :: e in sorted <==> e in elements)
    && Ascending(before, sorted)
  }

  lemma SortingTail<T(!new)>(before: Order<T>, elements: set<T>, s: seq<T>)
    requires Orders(before, elements) && IsSorting(before, elements, s) && s != []
    ensures IsSorting(before, elements - {s[0]}, s[1..]) && Orders(before, elements - {s[0]})
  {
    forall e ensures e in s[1..] <==> e in elements - {s[0]}
    {
      if e in s[1..] {
        var i :| 0 <= i < |s[1..]| && s[1..][i] == e;
        assert before(s[0], s[i + 1]);
      }
      if e in elements - {s[0]} {
        var i :| 0 <= i < |s| && s[i] == e;
        assert s[1..][i - 1] == e;
      }
    }
    assert Ascending(before, s[1..]);
  }

  lemma HeadIsLeast<T(!new)>(before: Order<T>, elements: set<T>, sorted: seq<T>, m: T)
    requires Orders(before, elements) && IsSorting(before, elements, sorted) && IsLeast(before, elements, m)
    ensures sorted != [] && sorted[0] == m
  {
    assert m in sorted;
    var i :| 0 <= i < |sorted| && sorted[i] == m;
    if i > 0 {
      assert sorted[0] in elements;
      assert Transits(before, m, sorted[0], m);
    }
  }

  lemma NothingLeft<T(!new)>(before: Order<T>, elements: set<T>, sorted: seq<T>)
    requires IsSorting(before, elements, sorted)
    ensures elements == {} <==> sorted == []
  {
    assert |sorted| > 0 ==> sorted[0] in elements;
    assert forall e :: e in elements ==> e in sorted;
  }

  lemma {:induction false} SortingUnique<T(!new)>(before: Order<T>, elements: set<T>, s: seq<T>, t: seq<T>)
    requires Orders(before, elements) && IsSorting(before, elements, s) && IsSorting(before, elements, t)
    ensures s == t
    decreases |s|
  {
    NothingLeft(before, elements, s);
    NothingLeft(before, elements, t);
    if s != [] {
      var m := LeastExists(before, elements);
      HeadIsLeast(before, elements, s, m);
      HeadIsLeast(before, elements, t, m);
      SortingTail(before, elements, s);
      SortingTail(before, elements, t);
      SortingUnique(before, elements - {m}, s[1..], t[1..]);
      assert s == [s[0]] + s[1..] && t == [t[0]] + t[1..];
    }
  }

  lemma {:induction false} SortingExists<T(!new)>(before: Order<T>, elements: set<T>) returns (sorted: seq<T>)
    requires Orders(before, elements)
    ensures IsSorting(before, elements, sorted)
    decreases |elements|
  {
    if elements == {} {
      sorted := [];
    } else {
      var m := LeastExists(before, elements);
      var rest := SortingExists(before, elements - {m});
      sorted := [m] + rest;
      forall i, j | 0 <= i < j < |sorted| ensures before(sorted[i], sorted[j])
      {
        if i == 0 {
          assert rest[j - 1] in elements - {m};
        } else {
          assert before(rest[i - 1], rest[j - 1]);
        }
      }
    }
  }

  /** Every element once. */
  lemma SortedOnce<T(!new)>(before: Order<T>, elements: set<T>, s: seq<T>, i: nat, j: nat)
    requires Orders(before, elements) && IsSorting(before, elements, s) && i < j < |s|
    ensures s[i] != s[j]
  {
    assert s[i] in elements;
    assert before(s[i], s[j]);
  }

  lemma BeforeMeansEarlier<T(!new)>(before: Order<T>, elements: set<T>, s: seq<T>, i: nat, j: nat)
    requires Orders(before, elements) && IsSorting(before, elements, s)
    requires i < |s| && j < |s| && before(s[i], s[j])
    ensures i < j
  {
    assert s[i] in elements && s[j] in elements;
    assert Transits(before, s[i], s[j], s[i]);
  }

  lemma AppendKeepsAscending<T(!new)>(before: Order<T>, s: seq<T>, e: T)
    requires Ascending(before, s) && forall x :: x in s ==> before(x, e)
    ensures Ascending(before, s + [e])
  {
  }

  lemma OneMore<T>(s: seq<T>, i: nat)
    requires i < |s|
    ensures s[..i + 1] == s[..i] + [s[i]]
  {
  }

  lemma MoveOver<T>(a: seq<T>, b: seq<T>)
    requires b != []
    ensures a + [b[0]] + b[1..] == a + b
  {
  }

  method PickLeast<T(!new, ==)>(before: Order<T>, elements: set<T>, ghost sorted: seq<T>) returns (m: T)
    requires Orders(before, elements) && elements != {} && IsSorting(before, elements, sorted)
    ensures sorted != [] && m == sorted[0] && m in elements
    ensures Orders(before, elements - {m}) && IsSorting(before, elements - {m}, sorted[1..])
  {
    ghost var least := LeastExists(before, elements);
    m :| m in elements && forall e :: e in elements && e != m ==> before(m, e);
    HeadIsLeast(before, elements, sorted, m);
    SortingTail(before, elements, sorted);
  }

  function Min(a: int, b: int): int { if a <= b then a else b }

  /** The first elements in the order, at most `limit` of them. */
  ghost predicate IsFront<T(!new)>(before: Order<T>, elements: set<T>, limit: nat, items: seq<T>)
  {
    forall sorted :: IsSorting(before, elements, sorted) ==> items <= sorted && |items| == Min(limit, |sorted|)
  }

  lemma FrontOf<T(!new)>(before: Order<T>, elements: set<T>, limit: nat, items: seq<T>, sorted: seq<T>)
    requires IsFront(before, elements, limit, items) && IsSorting(before, elements, sorted)
    ensures items <= sorted && |items| == Min(limit, |sorted|)
  {
  }

  lemma FrontOfNothing<T(!new)>(before: Order<T>, limit: nat)
    ensures IsFront(before, {}, limit, [])
  {
    forall sorted | IsSorting(before, {}, sorted) ensures sorted == []
    {
      NothingLeft(before, {}, sorted);
    }
  }

  method TakeSorted<T(!new, ==)>(before: Order<T>, elements: set<T>, limit: nat) returns (items: seq<T>)
    requires Orders(before, elements)
    ensures IsFront(before, elements, limit, items)
  {
    ghost var whole := SortingExists(before, elements);
    ghost var left := whole;
    items := [];
    var rest := elements;
    while rest != {} && |items| < limit
      invariant |items| <= limit && items + left == whole
      invariant Orders(before, rest) && IsSorting(before, rest, left)
      decreases |rest|
    {
      var m := PickLeast(before, rest, left);
      MoveOver(items, left);
      items := items + [m];
      left := left[1..];
      rest := rest - {m};
    }
    NothingLeft(before, rest, left);
    forall sorted | IsSorting(before, elements, sorted) ensures items <= sorted && |items| == Min(limit, |sorted|)
    {
      SortingUnique(before, elements, sorted, whole);
    }
  }

  /** `sort.Slice`, of distinct elements that come in any order. */
  method Sort<T(!new, ==)>(before: Order<T>, elements: set<T>) returns (items: seq<T>)
    requires Orders(before, elements)
    ensures IsSorting(before, elements, items)
  {
    ghost var sorted := SortingExists(before, elements);
    ghost var left := sorted;
    items := [];
    var rest := elements;
    while rest != {}
      invariant items + left == sorted
      invariant Orders(before, rest) && IsSorting(before, rest, left)
      decreases |rest|
    {
      var m := PickLeast(before, rest, left);
      MoveOver(items, left);
      items := items + [m];
      left := left[1..];
      rest := rest - {m};
    }
    NothingLeft(before, rest, left);
    assert items == sorted;
  }
}
