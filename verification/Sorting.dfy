/** Sorting by a "less" relation, and when the sorted list depends only on the elements. */
module Sorting {

  function Insert<T>(less: (T, T) -> bool, x: T, s: seq<T>): (r: seq<T>)
    ensures multiset(r) == multiset{x} + multiset(s)
  {
    if s == [] then [x]
    else if less(x, s[|s| - 1]) then
      assert s == s[..|s| - 1] + [s[|s| - 1]];
      Insert(less, x, s[..|s| - 1]) + [s[|s| - 1]]
    else s + [x]
  }

  /** A stable sort, in place of sort.Sort. */
  function Sort<T>(less: (T, T) -> bool, s: seq<T>): (r: seq<T>)
    ensures multiset(r) == multiset(s)
  {
    if s == [] then []
    else
      assert s == s[..|s| - 1] + [s[|s| - 1]];
      Insert(less, s[|s| - 1], Sort(less, s[..|s| - 1]))
  }

  lemma SortMembers<T>(less: (T, T) -> bool, s: seq<T>, x: T)
    ensures x in Sort(less, s) <==> x in s
  {
    assert x in Sort(less, s) <==> x in multiset(Sort(less, s));
  }

  /** On the given elements less is asymmetric and its ties are transitive. */
  ghost predicate StrictWeak<T(!new)>(less: (T, T) -> bool, elements: iset<T>) {
    && (forall x, y :: x in elements && y in elements && less(x, y) ==> !less(y, x))
    && (forall x, y, z :: x in elements && y in elements && z in elements && less(x, z) ==> less(x, y) || less(y, z))
  }

  /** Distinct elements never tie. */
  ghost predicate Total<T(!new)>(less: (T, T) -> bool, elements: iset<T>) {
    forall x, y :: x in elements && y in elements && x != y ==> less(x, y) || less(y, x)
  }

  ghost predicate Within<T(!new)>(s: seq<T>, elements: iset<T>) {
    forall i :: 0 <= i < |s| ==> s[i] in elements
  }

  /** No element is less than one before it. */
  ghost predicate Ordered<T>(less: (T, T) -> bool, s: seq<T>) {
    forall i, j :: 0 <= i < j < |s| ==> !less(s[j], s[i])
  }

  lemma InsertMembers<T>(less: (T, T) -> bool, x: T, s: seq<T>, y: T)
    ensures y in Insert(less, x, s) <==> y == x || y in s
  {
    assert y in Insert(less, x, s) <==> y in multiset(Insert(less, x, s));
  }

  lemma {:induction false} InsertOrdered<T(!new)>(less: (T, T) -> bool, elements: iset<T>, x: T, s: seq<T>)
    requires StrictWeak(less, elements) && Within(s, elements) && x in elements && Ordered(less, s)
    ensures Ordered(less, Insert(less, x, s))
  {
    if s != [] {
      var front, last := s[..|s| - 1], s[|s| - 1];
      if less(x, last) {
        InsertOrdered(less, elements, x, front);
        var r := Insert(less, x, front);
        forall i | 0 <= i < |r| ensures !less(last, r[i]) {
          InsertMembers(less, x, front, r[i]);
          if r[i] != x {
            var k :| 0 <= k < |front| && front[k] == r[i];
            assert front[k] == s[k];
          }
        }
      } else {
        forall i | 0 <= i < |s| ensures !less(x, s[i]) {
          if i < |s| - 1 { assert !less(last, s[i]); }
        }
      }
    }
  }

  lemma {:induction false} SortOrdered<T(!new)>(less: (T, T) -> bool, elements: iset<T>, s: seq<T>)
    requires StrictWeak(less, elements) && Within(s, elements)
    ensures Ordered(less, Sort(less, s)) && Within(Sort(less, s), elements)
  {
    if s != [] {
      var front, last := s[..|s| - 1], s[|s| - 1];
      SortOrdered(less, elements, front);
      InsertOrdered(less, elements, last, Sort(less, front));
    }
    forall i | 0 <= i < |Sort(less, s)| ensures Sort(less, s)[i] in elements {
      SortMembers(less, s, Sort(less, s)[i]);
    }
  }

  lemma SameHead<T(!new)>(less: (T, T) -> bool, elements: iset<T>, a: seq<T>, b: seq<T>)
    requires Total(less, elements) && Within(a, elements) && Within(b, elements)
    requires Ordered(less, a) && Ordered(less, b) && multiset(a) == multiset(b) && a != [] && b != []
    ensures a[0] == b[0]
  {
    assert a[0] in multiset(b) && b[0] in multiset(a);
    var i :| 0 <= i < |b| && b[i] == a[0];
    var j :| 0 <= j < |a| && a[j] == b[0];
  }

  lemma MultisetOfTail<T>(a: seq<T>)
    requires a != []
    ensures multiset(a[1..]) == multiset(a) - multiset{a[0]}
  {
    assert a == [a[0]] + a[1..];
  }

  /** Two ordered lists of the same elements are the same list when distinct elements never tie. */
  lemma {:induction false} OrderedIsUnique<T(!new)>(less: (T, T) -> bool, elements: iset<T>, a: seq<T>, b: seq<T>)
    requires Total(less, elements) && Within(a, elements) && Within(b, elements)
    requires Ordered(less, a) && Ordered(less, b) && multiset(a) == multiset(b)
    ensures a == b
    decreases |a|
  {
    assert |multiset(a)| == |multiset(b)|;
    if a != [] {
      SameHead(less, elements, a, b);
      MultisetOfTail(a);
      MultisetOfTail(b);
      OrderedIsUnique(less, elements, a[1..], b[1..]);
      assert a == [a[0]] + a[1..] && b == [b[0]] + b[1..];
    }
  }

  /** No element is less than its predecessor. */
  ghost predicate NoDescent<T>(less: (T, T) -> bool, s: seq<T>) {
    forall i, j :: 0 <= i < j < |s| && j == i + 1 ==> !less(s[j], s[i])
  }

  ghost predicate Asymmetric<T(!new)>(less: (T, T) -> bool) {
    forall x, y :: less(x, y) ==> !less(y, x)
  }

  lemma {:induction false} InsertLeavesNoDescent<T(!new)>(less: (T, T) -> bool, x: T, s: seq<T>)
    requires Asymmetric(less) && NoDescent(less, s)
    ensures NoDescent(less, Insert(less, x, s))
    ensures var r := Insert(less, x, s); r[|r| - 1] == x || (s != [] && r[|r| - 1] == s[|s| - 1])
  {
    if s != [] && less(x, s[|s| - 1]) {
      InsertLeavesNoDescent(less, x, s[..|s| - 1]);
    }
  }

  /** Even when ties are not transitive, sorting leaves no descent between neighbours. */
  lemma {:induction false} SortLeavesNoDescent<T(!new)>(less: (T, T) -> bool, s: seq<T>)
    requires Asymmetric(less)
    ensures NoDescent(less, Sort(less, s))
  {
    if s != [] {
      SortLeavesNoDescent(less, s[..|s| - 1]);
      InsertLeavesNoDescent(less, s[|s| - 1], Sort(less, s[..|s| - 1]));
    }
  }

  lemma NoDescentFront<T>(less: (T, T) -> bool, front: seq<T>, last: T)
    requires NoDescent(less, front + [last])
    ensures NoDescent(less, front) && (front != [] ==> !less(last, front[|front| - 1]))
  {
    var s := front + [last];
    assert front != [] ==> s[|front| - 1] == front[|front| - 1] && s[|front|] == last;
    forall i, j | 0 <= i < j < |front| && j == i + 1 ensures !less(front[j], front[i]) {
      assert s[i] == front[i] && s[j] == front[j];
    }
  }

  lemma SortSnoc<T>(less: (T, T) -> bool, front: seq<T>, last: T)
    requires Sort(less, front) == front && (front != [] ==> !less(last, front[|front| - 1]))
    ensures Sort(less, front + [last]) == front + [last]
  {
    var s := front + [last];
    assert s[..|s| - 1] == front && s[|s| - 1] == last;
  }

  lemma {:induction false} PrefixIsSorted<T>(less: (T, T) -> bool, front: seq<T>, last: T)
    requires NoDescent(less, front + [last])
    ensures Sort(less, front + [last]) == front + [last]
    decreases |front|
  {
    NoDescentFront(less, front, last);
    if front != [] {
      assert front == front[..|front| - 1] + [front[|front| - 1]];
      PrefixIsSorted(less, front[..|front| - 1], front[|front| - 1]);
    }
    SortSnoc(less, front, last);
  }

  /** A list without a descent is left as it is. */
  lemma NoDescentIsSorted<T>(less: (T, T) -> bool, s: seq<T>)
    requires NoDescent(less, s)
    ensures Sort(less, s) == s
  {
    if s != [] {
      var front, last := s[..|s| - 1], s[|s| - 1];
      assert s == front + [last];
      PrefixIsSorted(less, front, last);
    }
  }

  lemma SortThree<T>(less: (T, T) -> bool, a: T, b: T, c: T)
    requires !less(b, a) && !less(c, b)
    ensures Sort(less, [a, b, c]) == [a, b, c]
  {
    NoDescentIsSorted(less, [a, b, c]);
  }

  /** Sorting depends only on the elements, not on the order they come in. */
  lemma SortIsCanonical<T(!new)>(less: (T, T) -> bool, elements: iset<T>, a: seq<T>, b: seq<T>)
    requires StrictWeak(less, elements) && Total(less, elements)
    requires Within(a, elements) && Within(b, elements) && multiset(a) == multiset(b)
    ensures Sort(less, a) == Sort(less, b)
  {
    SortOrdered(less, elements, a);
    SortOrdered(less, elements, b);
    OrderedIsUnique(less, elements, Sort(less, a), Sort(less, b));
  }
}
