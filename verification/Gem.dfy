/**
 RubyGems version comparison: segments that are numbers or strings, a canonical form without
 insignificant zeros, a comparison of the common part, and a rule for the longer tail.
 */
module Gem {
  import opened Decimal
  import opened Order
  import opened Prelude

  datatype Segment = Num(n: nat) | Str(s: string)

  const ZERO := Num(0)

  /** Numbers by value, strings as text, every string below every number. */
  function SegmentOrder(l: Segment, r: Segment): (c: int) {
    match (l, r)
    case (Num(m), Num(n)) => CompareInt(m, n)
    case (Str(s), Str(t)) => CompareText(s, t)
    case (Num(_), Str(_)) => 1
    case (Str(_), Num(_)) => -1
  }

  /** The order on segment lists: lexicographic, both lists going on with zeros for ever. */
  function GemOrder(left: seq<Segment>, right: seq<Segment>): (c: int) {
    Lex(SegmentOrder, ZERO, left, right)
  }

  lemma SegmentOrderIsPreorder()
    ensures Preorder(SegmentOrder)
  {
    CompareTextIsPreorder();
    forall x: Segment, y: Segment, z: Segment | SegmentOrder(x, y) <= 0 && SegmentOrder(y, z) <= 0
      ensures SegmentOrder(x, z) <= 0
    {
      if x.Str? && y.Str? && z.Str? { CompareTextTransitive(x.s, y.s, z.s); }
    }
    forall x: Segment, y: Segment
      ensures -1 <= SegmentOrder(x, y) <= 1 && SegmentOrder(x, y) == -SegmentOrder(y, x)
    {
      if x.Str? && y.Str? { CompareTextAntisymmetric(x.s, y.s); }
    }
    forall x: Segment ensures SegmentOrder(x, x) == 0 {
      if x.Str? { CompareTextZero(x.s, x.s); }
    }
  }

  lemma GemOrderIsPreorder()
    ensures Preorder(GemOrder)
  {
    SegmentOrderIsPreorder();
    LexIsPreorder(SegmentOrder, ZERO);
    var h := LexBy(SegmentOrder, ZERO);
    forall x: seq<Segment>, y: seq<Segment> ensures GemOrder(x, y) == h(x, y) {
    }
    forall x: seq<Segment>, y: seq<Segment>
      ensures -1 <= GemOrder(x, y) <= 1 && GemOrder(x, y) == -GemOrder(y, x)
    {
      LexAntisymmetric(SegmentOrder, ZERO, x, y);
    }
    forall x: seq<Segment>, y: seq<Segment>, z: seq<Segment> | GemOrder(x, y) <= 0 && GemOrder(y, z) <= 0
      ensures GemOrder(x, z) <= 0
    {
      LexTransitive(SegmentOrder, ZERO, x, y, z);
    }
  }

  // ----- canonical form

  function DropTrailingZeros(s: seq<Segment>): (t: seq<Segment>)
    ensures t <= s
    ensures t == [] || t[|t| - 1] != ZERO
    ensures forall i :: |t| <= i < |s| ==> s[i] == ZERO
  {
    if s != [] && s[|s| - 1] == ZERO then DropTrailingZeros(s[..|s| - 1]) else s
  }

  /** A prefix that ends in a non-zero and is followed by zeros only is the trimmed list. */
  lemma {:induction false} DropTrailingZerosUnique(s: seq<Segment>, t: seq<Segment>)
    requires t <= s && (t == [] || t[|t| - 1] != ZERO)
    requires forall i :: |t| <= i < |s| ==> s[i] == ZERO
    ensures DropTrailingZeros(s) == t
  {
    if |t| < |s| {
      DropTrailingZerosUnique(s[..|s| - 1], t);
    } else {
      assert t == s;
    }
  }

  /** The number of leading segments before the first string. */
  function NumericPrefix(s: seq<Segment>): (k: nat)
    ensures k <= |s| && forall i :: 0 <= i < k ==> s[i].Num?
    ensures k < |s| ==> s[k].Str?
  {
    if s == [] || s[0].Str? then 0 else 1 + NumericPrefix(s[1..])
  }

  lemma {:induction false} NumericPrefixUnique(s: seq<Segment>, k: nat)
    requires k <= |s| && (forall i :: 0 <= i < k ==> s[i].Num?) && (k < |s| ==> s[k].Str?)
    ensures NumericPrefix(s) == k
  {
    if k > 0 {
      assert s[0].Num?;
      NumericPrefixUnique(s[1..], k - 1);
    }
  }

  function TrimmedTail(s: seq<Segment>): (t: seq<Segment>) {
    if s != [] && DropTrailingZeros(s) == [] then [ZERO] else DropTrailingZeros(s)
  }

  function TrimmedMiddle(s: seq<Segment>, prerelease: bool): (t: seq<Segment>) {
    var k := NumericPrefix(s);
    if prerelease && k < |s| then DropTrailingZeros(s[..k]) + s[k..] else s
  }

  function Canonical(s: seq<Segment>, prerelease: bool): (t: seq<Segment>) {
    var t := TrimmedMiddle(TrimmedTail(s), prerelease);
    if t == [] then [ZERO] else t
  }

  /** What canonical forms look like: a lone zero, or a list that does not end in zero. */
  ghost predicate EndsSignificant(t: seq<Segment>) {
    t == [ZERO] || (t != [] && t[|t| - 1] != ZERO)
  }

  lemma CanonicalShape(s: seq<Segment>, prerelease: bool)
    ensures EndsSignificant(Canonical(s, prerelease))
  {
    var t := TrimmedTail(s);
    var k := NumericPrefix(t);
    if prerelease && k < |t| {
      assert TrimmedMiddle(t, prerelease)[|TrimmedMiddle(t, prerelease)| - 1] == t[|t| - 1];
    }
  }

  lemma SignificantIsTrimmed(c: seq<Segment>)
    requires EndsSignificant(c)
    ensures TrimmedTail(c) == c
  {
    DropTrailingZerosUnique(c, if c == [ZERO] then [] else c);
  }

  /** A numeric prefix without trailing zeros in front of a string is left alone. */
  lemma TrimmedMiddleIsFixed(p: seq<Segment>, rest: seq<Segment>)
    requires p == [] || p[|p| - 1] != ZERO
    requires forall i :: 0 <= i < |p| ==> p[i].Num?
    requires rest != [] && rest[0].Str?
    ensures TrimmedMiddle(p + rest, true) == p + rest
  {
    NumericPrefixUnique(p + rest, |p|);
    assert (p + rest)[..|p|] == p && (p + rest)[|p|..] == rest;
    DropTrailingZerosUnique(p, p);
  }

  /** Canonicalising twice is canonicalising once. */
  lemma CanonicalIdempotent(s: seq<Segment>, prerelease: bool)
    ensures Canonical(Canonical(s, prerelease), prerelease) == Canonical(s, prerelease)
  {
    var t := TrimmedTail(s);
    CanonicalShape(s, prerelease);
    SignificantIsTrimmed(Canonical(s, prerelease));
    if prerelease && NumericPrefix(t) < |t| { MiddleIdempotent(t); }
  }

  lemma MiddleIdempotent(t: seq<Segment>)
    requires NumericPrefix(t) < |t|
    ensures TrimmedMiddle(t, true) != [] && TrimmedMiddle(TrimmedMiddle(t, true), true) == TrimmedMiddle(t, true)
  {
    var k := NumericPrefix(t);
    var p, rest := DropTrailingZeros(t[..k]), t[k..];
    assert forall i :: 0 <= i < |p| ==> p[i] == t[i];
    TrimmedMiddleIsFixed(p, rest);
    assert TrimmedMiddle(t, true) == p + rest;
  }

  lemma {:induction false} ZerosTieWithNothing(s: seq<Segment>)
    ensures GemOrder(s, []) == 0 <==> DropTrailingZeros(s) == []
  {
    if s != [] {
      ZerosTieWithNothing(s[1..]);
      if GemOrder(s, []) == 0 {
        assert DropTrailingZeros(s[1..]) == [];
        forall i | 0 <= i < |s| ensures s[i] == ZERO {
          if i > 0 { assert s[i] == s[1..][i - 1]; }
        }
        DropTrailingZerosUnique(s, []);
      }
    }
  }

  /** Lists that do not end in zero tie only when they are the same list. */
  lemma {:induction false} TieOfSignificant(a: seq<Segment>, b: seq<Segment>)
    requires a == [] || a[|a| - 1] != ZERO
    requires b == [] || b[|b| - 1] != ZERO
    ensures GemOrder(a, b) == 0 <==> a == b
    decreases |a| + |b|
  {
    SegmentOrderIsPreorder();
    if a == b {
      LexReflexive(SegmentOrder, ZERO, a);
    } else if a == [] {
      ZerosTieWithNothing(b);
      LexAntisymmetric(SegmentOrder, ZERO, a, b);
    } else if b == [] {
      ZerosTieWithNothing(a);
    } else {
      TieOfSignificant(a[1..], b[1..]);
      assert a == [a[0]] + a[1..] && b == [b[0]] + b[1..];
      if a[0].Str? && b[0].Str? { CompareTextZero(a[0].s, b[0].s); }
    }
  }

  /** On canonical forms the comparison is 0 exactly when the two forms are identical. */
  lemma CanonicalTie(s: seq<Segment>, p: bool, t: seq<Segment>, q: bool)
    ensures GemOrder(Canonical(s, p), Canonical(t, q)) == 0 <==> Canonical(s, p) == Canonical(t, q)
  {
    var a, b := Canonical(s, p), Canonical(t, q);
    CanonicalShape(s, p);
    CanonicalShape(t, q);
    GemOrderIsPreorder();
    assert GemOrder([ZERO], []) == 0 == GemOrder([], [ZERO]);
    if a == b {
    } else if a == [ZERO] {
      TieOfSignificant([], b);
      Chain(GemOrder, [], a, b);
    } else if b == [ZERO] {
      TieOfSignificant(a, []);
      Chain(GemOrder, a, b, []);
    } else {
      TieOfSignificant(a, b);
    }
  }

  /** Trimming trailing zeros does not move a list in the order: it ties with its original. */
  lemma {:induction false} TrimmingTailKeepsOrder(s: seq<Segment>)
    ensures GemOrder(TrimmedTail(s), s) == 0
  {
    var t := TrimmedTail(s);
    SegmentOrderIsPreorder();
    forall i: nat ensures SegmentOrder(At(t, ZERO, i), At(s, ZERO, i)) == 0 {
      assert At(t, ZERO, i) == At(s, ZERO, i);
    }
    LexFirstDifference(SegmentOrder, ZERO, t, s);
  }

  // ----- versions

  datatype Version = Version(segments: seq<Segment>, prerelease: bool)

  function CanonicalOf(v: Version): (t: seq<Segment>) {
    Canonical(v.segments, v.prerelease)
  }

  function VersionOrder(): (cmp: (Version, Version) -> int) {
    Via(CanonicalOf, GemOrder)
  }

  /** Gem version comparison is a total preorder. */
  lemma VersionOrderIsPreorder()
    ensures Preorder(VersionOrder())
  {
    GemOrderIsPreorder();
    ViaIsPreorder(CanonicalOf, GemOrder);
  }

  // ----- what the order says

  function ZeroSegments(n: nat): (zeros: seq<Segment>)
    ensures |zeros| == n && forall i :: 0 <= i < n ==> zeros[i] == ZERO
  {
    seq(n, _ => ZERO)
  }

  /** A list whose first string is preceded by front keeps, of its tail, all but the trailing zeros. */
  lemma TailOfParts(front: seq<Segment>, rest: seq<Segment>)
    requires forall i :: 0 <= i < |front| ==> front[i].Num?
    requires rest != [] && rest[0].Str?
    ensures TrimmedTail(front + rest) == front + DropTrailingZeros(rest)
    ensures TrimmedMiddle(front + DropTrailingZeros(rest), true) == DropTrailingZeros(front) + DropTrailingZeros(rest)
  {
    var tail := DropTrailingZeros(rest);
    assert tail != [] && tail[0] == rest[0];
    DropTrailingZerosUnique(front + rest, front + tail);
    NumericPrefixUnique(front + tail, |front|);
    assert (front + tail)[..|front|] == front && (front + tail)[|front|..] == tail;
  }

  /** What the canonical form of numbers, zeros and a rest that starts with a string is. */
  lemma CanonicalOfParts(p: seq<Segment>, n: nat, rest: seq<Segment>)
    requires forall i :: 0 <= i < |p| ==> p[i].Num?
    requires rest != [] && rest[0].Str?
    ensures Canonical(p + ZeroSegments(n) + rest, true) == DropTrailingZeros(p) + DropTrailingZeros(rest)
    ensures Canonical(p + ZeroSegments(n) + rest, false) == p + ZeroSegments(n) + DropTrailingZeros(rest)
  {
    TailOfParts(p + ZeroSegments(n), rest);
    DropTrailingZerosUnique(p + ZeroSegments(n), DropTrailingZeros(p));
    assert DropTrailingZeros(rest) != [];
  }

  /**
   In a prerelease the zeros before the first string do not count: with and without them a version
   has one canonical form. In a release they stay.
   */
  lemma PrereleaseZerosDoNotCount(p: seq<Segment>, n: nat, rest: seq<Segment>)
    requires forall i :: 0 <= i < |p| ==> p[i].Num?
    requires rest != [] && rest[0].Str?
    ensures VersionOrder()(Version(p + ZeroSegments(n) + rest, true), Version(p + rest, true)) == 0
    ensures CanonicalOf(Version(p + ZeroSegments(n) + rest, true)) == CanonicalOf(Version(p + rest, true))
    ensures p + ZeroSegments(n) <= CanonicalOf(Version(p + ZeroSegments(n) + rest, false))
    ensures p == [] || p[|p| - 1] != ZERO ==> p <= CanonicalOf(Version(p + rest, true))
  {
    assert p + ZeroSegments(0) == p;
    CanonicalOfParts(p, n, rest);
    CanonicalOfParts(p, 0, rest);
    SameCanonicalForm(Version(p + ZeroSegments(n) + rest, true), Version(p + rest, true));
    if p == [] || p[|p| - 1] != ZERO { DropTrailingZerosUnique(p, p); }
  }

  lemma SameCanonicalForm(v: Version, w: Version)
    requires CanonicalOf(v) == CanonicalOf(w)
    ensures VersionOrder()(v, w) == 0
  {
    SegmentOrderIsPreorder();
    LexReflexive(SegmentOrder, ZERO, CanonicalOf(v));
    assert VersionOrder()(v, w) == GemOrder(CanonicalOf(v), CanonicalOf(w));
  }

  /** The first segment that differs decides: numbers by value, strings as text, strings below numbers. */
  lemma FirstSegmentDecides(p: seq<Segment>, a: Segment, s: seq<Segment>, b: Segment, t: seq<Segment>)
    ensures a.Num? && b.Num? && a.n < b.n ==> GemOrder(p + [a] + s, p + [b] + t) == -1
    ensures a.Str? && b.Num? ==> GemOrder(p + [a] + s, p + [b] + t) == -1
    ensures a.Str? && b.Str? && CompareText(a.s, b.s) == -1 ==> GemOrder(p + [a] + s, p + [b] + t) == -1
    ensures a.Str? ==> GemOrder(p + [a] + s, p) == -1
    ensures a.Num? && a.n > 0 ==> GemOrder(p, p + [a] + s) == -1
  {
    SegmentOrderIsPreorder();
    assert p + [a] + s == p + ([a] + s) && p + [b] + t == p + ([b] + t) && p + [] == p;
    LexSkipPrefix(SegmentOrder, ZERO, p, [a] + s, [b] + t);
    LexSkipPrefix(SegmentOrder, ZERO, p, [a] + s, []);
    LexSkipPrefix(SegmentOrder, ZERO, p, [], [a] + s);
  }

  // ----- the code

  method TrimTrailingZeros(segments: seq<Segment>) returns (out: seq<Segment>)
    ensures out == TrimmedTail(segments)
  {
    if |segments| <= 1 {
      if |segments| == 1 && segments[0] == ZERO {
        DropTrailingZerosUnique(segments, []);
        return [ZERO];
      }
      return segments;
    }
    var last := -1;
    var i := |segments| - 1;
    while i >= 0
      invariant -1 <= i < |segments| && last == -1
      invariant forall j :: i < j < |segments| ==> segments[j] == ZERO
    {
      if segments[i] != ZERO {
        last := i;
        break;
      }
      i := i - 1;
    }
    if last == -1 {
      DropTrailingZerosUnique(segments, []);
      return [ZERO];
    }
    out := segments[..last + 1];
    DropTrailingZerosUnique(segments, out);
  }

  method TrimIntermediateZeros(segments: seq<Segment>, isPrerelease: bool) returns (out: seq<Segment>)
    ensures out == TrimmedMiddle(segments, isPrerelease)
  {
    if !isPrerelease || |segments| == 0 {
      return segments;
    }
    var firstLetter := -1;
    var i := 0;
    while i < |segments|
      invariant 0 <= i <= |segments| && firstLetter == -1
      invariant forall j :: 0 <= j < i ==> segments[j].Num?
    {
      if segments[i].Str? {
        firstLetter := i;
        break;
      }
      i := i + 1;
    }
    if firstLetter == -1 {
      NumericPrefixUnique(segments, |segments|);
      return segments;
    }
    NumericPrefixUnique(segments, firstLetter);
    var before := if firstLetter > 0 then segments[..firstLetter] else [];
    var prefix := [];
    var lastNonZero := -1;
    i := |before| - 1;
    while i >= 0
      invariant -1 <= i < |before| || before == []
      invariant lastNonZero == -1
      invariant forall j :: 0 <= j && i < j < |before| ==> before[j] == ZERO
    {
      if before[i] != ZERO {
        lastNonZero := i;
        break;
      }
      i := i - 1;
    }
    if lastNonZero != -1 {
      prefix := before[..lastNonZero + 1];
    }
    DropTrailingZerosUnique(before, prefix);
    assert before == segments[..firstLetter];
    out := prefix + segments[firstLetter..];
  }

  method Canonicalise(segments: seq<Segment>, isPrerelease: bool) returns (out: seq<Segment>)
    ensures out == Canonical(segments, isPrerelease)
  {
    out := TrimTrailingZeros(segments);
    out := TrimIntermediateZeros(out, isPrerelease);
    if |out| == 0 { out := [ZERO]; }
  }

  /** The common part of the two lists: the first difference, or none. */
  method CompareSegments(left: seq<Segment>, right: seq<Segment>) returns (result: int, allEqual: bool)
    ensures !allEqual ==> result != 0 && result == GemOrder(left, right)
    ensures allEqual ==> result == 0
    ensures allEqual ==> GemOrder(left, right) ==
                         GemOrder(Drop(left, Min(|left|, |right|)), Drop(right, Min(|left|, |right|)))
  {
    var limit := Min(|right|, |left|);
    var i := 0;
    assert Drop(left, 0) == left && Drop(right, 0) == right;
    while i < limit
      invariant 0 <= i <= limit
      invariant GemOrder(left, right) == GemOrder(Drop(left, i), Drop(right, i))
    {
      LexStep(SegmentOrder, ZERO, left, right, i);
      var l, r := left[i], right[i];
      if l.Num? && r.Num? {
        if l.n != r.n {
          if l.n < r.n { return -1, false; }
          return 1, false;
        }
      } else if l.Str? && r.Str? {
        var cmp := CompareText(l.s, r.s);
        if cmp != 0 { return cmp, false; }
      } else if l.Num? && r.Str? {
        return 1, false;
      } else {
        return -1, false;
      }
      i := i + 1;
    }
    return 0, true;
  }

  lemma TailStep(s: seq<Segment>, i: nat)
    requires i < |s|
    ensures GemOrder(s[i..], []) == if s[i].Str? then -1 else if s[i].n != 0 then 1 else GemOrder(s[i + 1..], [])
    ensures GemOrder([], s[i..]) == if s[i].Str? then 1 else if s[i].n != 0 then -1 else GemOrder([], s[i + 1..])
  {
    assert Tail(s[i..]) == s[i + 1..];
  }

  /** The tail of the left list against zeros. */
  method CompareLeftTail(left: seq<Segment>, right: seq<Segment>) returns (r: int)
    requires |left| > |right|
    ensures r == GemOrder(left[|right|..], [])
  {
    var i := |right|;
    while i < |left|
      invariant |right| <= i <= |left|
      invariant GemOrder(left[|right|..], []) == GemOrder(left[i..], [])
    {
      TailStep(left, i);
      if left[i].Str? { return -1; }
      if left[i].n != 0 { return 1; }
      i := i + 1;
    }
    return 0;
  }

  /** Zeros against the tail of the right list. */
  method CompareRightTail(left: seq<Segment>, right: seq<Segment>) returns (r: int)
    requires |left| < |right|
    ensures r == GemOrder([], right[|left|..])
  {
    var i := |left|;
    while i < |right|
      invariant |left| <= i <= |right|
      invariant GemOrder([], right[|left|..]) == GemOrder([], right[i..])
    {
      TailStep(right, i);
      if right[i].Str? { return 1; }
      if right[i].n != 0 { return -1; }
      i := i + 1;
    }
    return 0;
  }

  /** The tail of the longer list against the zeros it is compared with. */
  method CompareLengths(left: seq<Segment>, right: seq<Segment>, commonResult: int) returns (r: int)
    ensures commonResult != 0 ==> r == commonResult
    ensures commonResult == 0 ==>
              r == GemOrder(Drop(left, Min(|left|, |right|)), Drop(right, Min(|left|, |right|)))
  {
    if commonResult != 0 { return commonResult; }
    if |left| == |right| { return 0; }
    if |left| > |right| {
      r := CompareLeftTail(left, right);
    } else {
      r := CompareRightTail(left, right);
    }
  }

  /** Comparing two gem versions by their canonical forms computes VersionOrder. */
  method Compare(v: Version, other: Version) returns (r: int)
    ensures r == VersionOrder()(v, other)
  {
    assert VersionOrder()(v, other) == GemOrder(CanonicalOf(v), CanonicalOf(other));
    var left := Canonicalise(v.segments, v.prerelease);
    var right := Canonicalise(other.segments, other.prerelease);
    var result, commonSegmentsAreEqual := CompareSegments(left, right);
    if commonSegmentsAreEqual {
      r := CompareLengths(left, right, result);
    } else {
      r := result;
    }
  }
}
