/**
 The order that sorts the details of a match, and when sorting them gives one result whatever order
 they come in. A detail's type is a string; three types are registered with a place in the order.
 */
module DetailOrder {
  import opened Decimal
  import opened Findings
  import opened Order
  import opened Sorting

  function TypeOrder(ty: MatchType): (n: nat) {
    match ty case ExactDirect => 1 case ExactIndirect => 2 case Cpe => 3 case Other(_) => 0
  }

  predicate DetailLess(a: Detail, b: Detail) {
    if a.ty != b.ty then
      var at, bt := TypeOrder(a.ty), TypeOrder(b.ty);
      at != 0 && (bt == 0 || at < bt)
    else if a.confidence != b.confidence then a.confidence > b.confidence
    else CompareText(a.id, b.id) < 0
  }

  /** The details of the registered types and of one more type. */
  ghost function WithType(ty: MatchType): (r: iset<Detail>) {
    iset d: Detail | !d.ty.Other? || d.ty == ty
  }

  lemma DetailLessTies(ty: MatchType, a: Detail, b: Detail, c: Detail)
    requires DetailLess(a, c) && a in WithType(ty) && b in WithType(ty) && c in WithType(ty)
    ensures DetailLess(a, b) || DetailLess(b, c)
  {
    CompareTextIsPreorder();
    Chain(CompareText, c.id, b.id, a.id);
    CompareTextAntisymmetric(a.id, c.id);
    CompareTextAntisymmetric(a.id, b.id);
    CompareTextAntisymmetric(b.id, c.id);
  }

  lemma DetailLessAsymmetric(a: Detail, b: Detail)
    requires DetailLess(a, b)
    ensures !DetailLess(b, a)
  {
    CompareTextAntisymmetric(a.id, b.id);
  }

  lemma DetailLessIsStrictWeak(ty: MatchType)
    ensures StrictWeak(DetailLess, WithType(ty)) && Total(DetailLess, WithType(ty))
  {
    var all := WithType(ty);
    forall x, y | x in all && y in all && DetailLess(x, y) ensures !DetailLess(y, x) {
      DetailLessAsymmetric(x, y);
    }
    forall x, y, z | x in all && y in all && z in all && DetailLess(x, z)
      ensures DetailLess(x, y) || DetailLess(y, z)
    {
      DetailLessTies(ty, x, y, z);
    }
    forall x, y | x in all && y in all && x != y ensures DetailLess(x, y) || DetailLess(y, x) {
      CompareTextAntisymmetric(x.id, y.id);
      CompareTextZero(x.id, y.id);
    }
  }

  // ----- when sorting is canonical

  /** All details of unregistered types have the same type. */
  ghost predicate OneUnregisteredType(details: seq<Detail>) {
    forall d, e :: d in details && e in details && d.ty.Other? && e.ty.Other? ==> d.ty == e.ty
  }

  /** Every order of the details sorts to one list. */
  ghost predicate SortsCanonically(details: seq<Detail>) {
    forall other: seq<Detail> | multiset(other) == multiset(details) ::
      Sort(DetailLess, other) == Sort(DetailLess, details)
  }

  lemma OneTypeIsWithin(details: seq<Detail>) returns (ty: MatchType)
    requires OneUnregisteredType(details)
    ensures Within(details, WithType(ty))
  {
    ty := Cpe;
    if d :| d in details && d.ty.Other? { ty := d.ty; }
  }

  lemma OneTypeSortsCanonically(details: seq<Detail>)
    requires OneUnregisteredType(details)
    ensures SortsCanonically(details)
  {
    var ty := OneTypeIsWithin(details);
    DetailLessIsStrictWeak(ty);
    forall other: seq<Detail> | multiset(other) == multiset(details)
      ensures Sort(DetailLess, other) == Sort(DetailLess, details)
    {
      forall i | 0 <= i < |other| ensures other[i] in WithType(ty) {
        assert other[i] in multiset(other);
        assert other[i] in details;
      }
      SortIsCanonical(DetailLess, WithType(ty), other, details);
    }
  }

  /** Details of registered types may precede any unregistered ones, and those of two types each other. */
  lemma NoDescentConcat(a: seq<Detail>, b: seq<Detail>)
    requires NoDescent(DetailLess, a) && NoDescent(DetailLess, b)
    requires forall x, y :: x in a && y in b ==> y.ty.Other? && x.ty != y.ty
    ensures NoDescent(DetailLess, a + b)
  {
    if a != [] && b != [] {
      assert a[|a| - 1] in a && b[0] in b;
    }
  }

  function Select(p: Detail -> bool, s: seq<Detail>): (r: seq<Detail>)
    ensures forall x :: x in r <==> x in s && p(x)
  {
    if s == [] then [] else Select(p, s[..|s| - 1]) + (if p(s[|s| - 1]) then [s[|s| - 1]] else [])
  }

  lemma {:induction false} SelectParts(p: Detail -> bool, q: Detail -> bool, s: seq<Detail>)
    requires forall x :: x in s ==> (q(x) <==> !p(x))
    ensures multiset(Select(p, s)) + multiset(Select(q, s)) == multiset(s)
  {
    if s != [] {
      var front, last := s[..|s| - 1], s[|s| - 1];
      assert s == front + [last];
      SelectParts(p, q, front);
    }
  }

  /** The sorted registered details, those of one unregistered type, and all others. */
  lemma Blocks(details: seq<Detail>, ty: MatchType)
    returns (registered: seq<Detail>, own: seq<Detail>, others: seq<Detail>)
    requires ty.Other?
    ensures NoDescent(DetailLess, registered) && NoDescent(DetailLess, own) && NoDescent(DetailLess, others)
    ensures multiset(registered) + multiset(own) + multiset(others) == multiset(details)
    ensures forall d :: d in registered ==> !d.ty.Other?
    ensures forall d :: d in own <==> d in details && d.ty == ty
    ensures forall d :: d in others <==> d in details && d.ty.Other? && d.ty != ty
  {
    var rest := Select((d: Detail) => d.ty.Other?, details);
    SelectParts((d: Detail) => !d.ty.Other?, (d: Detail) => d.ty.Other?, details);
    SelectParts((d: Detail) => d.ty == ty, (d: Detail) => d.ty != ty, rest);
    registered := SortedPart((d: Detail) => !d.ty.Other?, details);
    own := SortedPart((d: Detail) => d.ty == ty, rest);
    others := SortedPart((d: Detail) => d.ty != ty, rest);
  }

  lemma SortedPart(p: Detail -> bool, s: seq<Detail>) returns (r: seq<Detail>)
    ensures NoDescent(DetailLess, r) && multiset(r) == multiset(Select(p, s))
    ensures forall x :: x in r <==> x in s && p(x)
  {
    r := Sort(DetailLess, Select(p, s));
    forall x, y | DetailLess(x, y) ensures !DetailLess(y, x) {
      DetailLessAsymmetric(x, y);
    }
    SortLeavesNoDescent(DetailLess, Select(p, s));
    forall x ensures x in r <==> x in s && p(x) {
      SortMembers(DetailLess, Select(p, s), x);
    }
  }

  ghost predicate AreBlocks(registered: seq<Detail>, own: seq<Detail>, others: seq<Detail>) {
    && NoDescent(DetailLess, registered) && NoDescent(DetailLess, own) && NoDescent(DetailLess, others)
    && (forall d :: d in registered ==> !d.ty.Other?)
    && (forall d :: d in own ==> d.ty.Other?)
    && (forall d :: d in others ==> d.ty.Other?)
    && (forall d, e :: d in own && e in others ==> d.ty != e.ty)
  }

  lemma BlocksSort(registered: seq<Detail>, own: seq<Detail>, others: seq<Detail>)
    requires AreBlocks(registered, own, others)
    ensures var s := registered + (own + others);
            Sort(DetailLess, s) == s && multiset(s) == multiset(registered) + multiset(own) + multiset(others)
  {
    NoDescentConcat(own, others);
    forall x, y | x in registered && y in own + others ensures y.ty.Other? && x.ty != y.ty {
    }
    NoDescentConcat(registered, own + others);
    NoDescentIsSorted(DetailLess, registered + (own + others));
  }

  /** The blocks of two unregistered types may come in either order, and both lists are sorted. */
  lemma TwoTypesSortDifferently(details: seq<Detail>) returns (a: seq<Detail>, b: seq<Detail>)
    requires !OneUnregisteredType(details)
    ensures multiset(a) == multiset(b) == multiset(details)
    ensures Sort(DetailLess, a) == a && Sort(DetailLess, b) == b && a != b
  {
    var registered, own, others := BlocksOfTwoTypes(details);
    BlocksSort(registered, own, others);
    BlocksSort(registered, others, own);
    SwappedBlocksDiffer(registered, own, others);
    a, b := registered + (own + others), registered + (others + own);
  }

  lemma BlocksOfTwoTypes(details: seq<Detail>) returns (registered: seq<Detail>, own: seq<Detail>, others: seq<Detail>)
    requires !OneUnregisteredType(details)
    ensures AreBlocks(registered, own, others) && AreBlocks(registered, others, own)
    ensures own != [] && others != [] && own[0] != others[0]
    ensures multiset(registered) + multiset(own) + multiset(others) == multiset(details)
  {
    var d, e :| d in details && e in details && d.ty.Other? && e.ty.Other? && d.ty != e.ty;
    registered, own, others := Blocks(details, d.ty);
    assert d in own && e in others;
    assert own[0] in own && others[0] in others;
  }

  lemma SwappedBlocksDiffer(registered: seq<Detail>, own: seq<Detail>, others: seq<Detail>)
    requires own != [] && others != [] && own[0] != others[0]
    ensures registered + (own + others) != registered + (others + own)
  {
    assert (registered + (own + others))[|registered|] == own[0];
    assert (registered + (others + own))[|registered|] == others[0];
  }

  /** Sorting depends only on the elements exactly when at most one unregistered type occurs. */
  lemma DetailsSortCanonically(details: seq<Detail>)
    ensures SortsCanonically(details) <==> OneUnregisteredType(details)
  {
    if OneUnregisteredType(details) {
      OneTypeSortsCanonically(details);
    } else {
      var a, b := TwoTypesSortDifferently(details);
    }
  }

  /** A concrete list of two unregistered types that sorts to itself and, reversed, to its reverse. */
  lemma UnregisteredTypesAreUnstable()
    ensures var x, y, z := Detail(Other("x"), 1.0, ""), Detail(Other("y"), 0.5, ""), Detail(Other("x"), 0.0, "");
            && DetailLess(x, z) && !DetailLess(x, y) && !DetailLess(y, z)
            && Sort(DetailLess, [z, y, x]) == [z, y, x] && Sort(DetailLess, [x, y, z]) == [x, y, z]
  {
    var x, y, z := Detail(Other("x"), 1.0, ""), Detail(Other("y"), 0.5, ""), Detail(Other("x"), 0.0, "");
    SortThree(DetailLess, z, y, x);
    SortThree(DetailLess, x, y, z);
  }

  // ----- where details end up

  /** No detail is less than an earlier one, except possibly when both have unregistered types. */
  ghost predicate MostlyOrdered(s: seq<Detail>) {
    forall i, j :: 0 <= i < j < |s| && !(s[i].ty.Other? && s[j].ty.Other?) ==> !DetailLess(s[j], s[i])
  }

  lemma {:induction false} InsertMostlyOrdered(x: Detail, s: seq<Detail>)
    requires MostlyOrdered(s)
    ensures MostlyOrdered(Insert(DetailLess, x, s))
  {
    if s != [] {
      var front, last := s[..|s| - 1], s[|s| - 1];
      if DetailLess(x, last) {
        InsertMostlyOrdered(x, front);
        var r := Insert(DetailLess, x, front);
        forall d | d in r && !(d.ty.Other? && last.ty.Other?) ensures !DetailLess(last, d) {
          InsertMembers(DetailLess, x, front, d);
          StaysBefore(x, s, d);
        }
        MostlyOrderedSnoc(r, last);
      } else {
        forall d | d in s && !(d.ty.Other? && x.ty.Other?) ensures !DetailLess(x, d) {
          var i :| 0 <= i < |s| && s[i] == d;
          GoesLast(x, s, i);
        }
        MostlyOrderedSnoc(s, x);
      }
    } else {
      assert Insert(DetailLess, x, s) == [x];
    }
  }

  lemma MostlyOrderedSnoc(s: seq<Detail>, x: Detail)
    requires MostlyOrdered(s) && forall d :: d in s && !(d.ty.Other? && x.ty.Other?) ==> !DetailLess(x, d)
    ensures MostlyOrdered(s + [x])
  {
  }

  lemma StaysBefore(x: Detail, s: seq<Detail>, d: Detail)
    requires s != [] && MostlyOrdered(s) && DetailLess(x, s[|s| - 1])
    requires d == x || d in s[..|s| - 1]
    requires !(d.ty.Other? && s[|s| - 1].ty.Other?)
    ensures !DetailLess(s[|s| - 1], d)
  {
    if d == x {
      DetailLessAsymmetric(x, s[|s| - 1]);
    } else {
      var k :| 0 <= k < |s| - 1 && s[..|s| - 1][k] == d;
      assert s[k] == d;
    }
  }

  lemma GoesLast(x: Detail, s: seq<Detail>, i: nat)
    requires i < |s| && MostlyOrdered(s) && !DetailLess(x, s[|s| - 1])
    requires !(s[i].ty.Other? && x.ty.Other?)
    ensures !DetailLess(x, s[i])
  {
    var last, d := s[|s| - 1], s[i];
    if !x.ty.Other? && i < |s| - 1 && DetailLess(x, d) {
      assert !last.ty.Other? && !DetailLess(last, d);
      DetailLessTies(d.ty, x, last, d);
    }
  }

  lemma {:induction false} SortMostlyOrdered(s: seq<Detail>)
    ensures MostlyOrdered(Sort(DetailLess, s))
  {
    if s != [] {
      SortMostlyOrdered(s[..|s| - 1]);
      InsertMostlyOrdered(s[|s| - 1], Sort(DetailLess, s[..|s| - 1]));
    }
  }

  /**
   Sorted details have direct matches first, then indirect ones, then CPE matches, then those of
   unregistered types, and within a registered type the highest confidence first and then the ids
   in text order.
   */
  lemma SortedDetailsOrder(details: seq<Detail>, i: nat, j: nat)
    requires i < j < |details|
    ensures |Sort(DetailLess, details)| == |details|
    ensures var r := Sort(DetailLess, details);
            && (r[i].ty.Other? ==> r[j].ty.Other?)
            && (r[j].ty == ExactDirect ==> r[i].ty == ExactDirect)
            && (r[j].ty == ExactIndirect ==> r[i].ty != Cpe)
            && (r[i].ty == r[j].ty && !r[i].ty.Other? ==> r[i].confidence >= r[j].confidence)
            && (r[i].ty == r[j].ty && !r[i].ty.Other? && r[i].confidence == r[j].confidence ==>
                  CompareText(r[i].id, r[j].id) <= 0)
  {
    SortMostlyOrdered(details);
    var r := Sort(DetailLess, details);
    assert |r| == |multiset(r)| == |multiset(details)| == |details|;
    if !(r[i].ty.Other? && r[j].ty.Other?) {
      assert !DetailLess(r[j], r[i]);
      CompareTextAntisymmetric(r[i].id, r[j].id);
    }
  }
}
