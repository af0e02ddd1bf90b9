/**
 Gentoo (Portage) version comparison.

 A version is what the version regular expression captures: the leading number, the dotted
 components, an optional letter, the `_suffix` list and the `-r` revision. The comparison pads
 the two sides against each other, differently for every pair; the order it computes is
 nevertheless one fixed lexicographic order, KeyOrder.
 */
module Portage {
  import opened Decimal
  import opened Order
  import opened Prelude

  datatype SuffixKind = Alpha | Beta | Pre | Rc | P

  function SuffixValue(kind: SuffixKind): (v: int) {
    match kind
    case Alpha => -4
    case Beta => -3
    case Pre => -2
    case Rc => -1
    case P => 0
  }

  /** One `_kindNNN` group; the number may be absent. */
  datatype Suffix = Suffix(kind: SuffixKind, number: Numeral)

  datatype Version = Version(
    major: Digits,
    components: seq<Digits>,
    letter: Option<char>,
    suffixes: seq<Suffix>,
    revision: Numeral
  )

  // ----- components

  predicate LeadingZero(s: string) {
    s != "" && s[0] == '0'
  }

  function StripTrailingZeros(s: string): (t: string) {
    if s != "" && s[|s| - 1] == '0' then StripTrailingZeros(s[..|s| - 1]) else s
  }

  /**
   Section 3.3 of the Gentoo Package Manager Specification: as integers, unless one side has a
   leading zero; then strip trailing zeros from both and compare as ASCII text.
   */
  function PmsOrder(x: Digits, y: Digits): (r: int) {
    if !LeadingZero(x) && !LeadingZero(y) then CompareInt(Value(x), Value(y))
    else CompareText(StripTrailingZeros(x), StripTrailingZeros(y))
  }

  function PadRight(s: string, n: nat): (t: string)
    ensures AllDigits(s) ==> AllDigits(t)
    ensures |t| == if |s| < n then n else |s|
  {
    if |s| < n then s + Zeros(n - |s|) else s
  }

  /** Digit strings compared as decimal fractions: both go on with zeros for ever. */
  function FractionOrder(x: string, y: string): (r: int) {
    Lex(CompareChar, '0', x, y)
  }

  lemma {:induction false} StripFront(s: string)
    requires s != ""
    ensures StripTrailingZeros(s) ==
            if s[0] == '0' && StripTrailingZeros(s[1..]) == "" then ""
            else [s[0]] + StripTrailingZeros(s[1..])
  {
    var k := |s| - 1;
    if s[k] == '0' && k > 0 {
      StripFront(s[..k]);
      assert s[1..][..k - 1] == s[..k][1..];
    } else if k == 0 {
      assert s == [s[0]] && s[1..] == "" && s[..k] == "";
    } else {
      assert s == [s[0]] + s[1..];
    }
  }

  lemma {:induction false} StrippedIsFraction(x: string, y: string)
    requires AllDigits(x) && AllDigits(y)
    ensures CompareText(StripTrailingZeros(x), StripTrailingZeros(y)) == FractionOrder(x, y)
    decreases |x| + |y|
  {
    if x != "" || y != "" {
      StrippedIsFraction(Tail(x), Tail(y));
      if x != "" { StripFront(x); }
      if y != "" { StripFront(y); }
    }
  }

  lemma PadRightFront(s: string, n: nat)
    requires 0 < n && |s| <= n
    ensures PadRight(s, n)[0] == At(s, '0', 0) && PadRight(s, n)[1..] == PadRight(Tail(s), n - 1)
  {
    if s == "" {
      assert Zeros(n)[1..] == Zeros(n - 1);
    } else {
      assert (s + Zeros(n - |s|))[1..] == s[1..] + Zeros(n - |s|);
    }
  }

  lemma {:induction false} PaddedIsFraction(x: string, y: string, n: nat)
    requires |x| <= n && |y| <= n
    ensures CompareText(PadRight(x, n), PadRight(y, n)) == FractionOrder(x, y)
    decreases n
  {
    if n > 0 {
      PadRightFront(x, n);
      PadRightFront(y, n);
      PaddedIsFraction(Tail(x), Tail(y), n - 1);
    }
  }

  /**
   The code's rule for a component with a leading zero (right-pad with zeros, compare as
   integers) is the specification's strip-and-compare rule, on all digit strings.
   */
  lemma RightPaddingIsPms(x: Digits, y: Digits)
    ensures CompareInt(Value(PadRight(x, Max(|x|, |y|))), Value(PadRight(y, Max(|x|, |y|)))) ==
            CompareText(StripTrailingZeros(x), StripTrailingZeros(y))
  {
    var n := Max(|x|, |y|);
    SameLengthTextIsNumeric(PadRight(x, n), PadRight(y, n));
    PaddedIsFraction(x, y, n);
    StrippedIsFraction(x, y);
  }

  /** Components with a missing one as bottom. */
  function ComponentOrder(x: Numeral, y: Numeral): (r: int) {
    if x == "" || y == "" then CompareInt(|x|, |y|) else PmsOrder(x, y)
  }

  lemma LeadingZeroIsSmaller(x: Digits, y: Digits)
    requires LeadingZero(x) && !LeadingZero(y)
    ensures PmsOrder(x, y) == -1 && PmsOrder(y, x) == 1
  {
    StripFront(x);
    StripFront(y);
  }

  lemma ComponentOrderIsPreorder()
    ensures Preorder<Numeral>(ComponentOrder)
  {
    CompareTextIsPreorder();
    forall x: Numeral ensures ComponentOrder(x, x) == 0 {
      CompareTextZero(StripTrailingZeros(x), StripTrailingZeros(x));
    }
    forall x: Numeral, y: Numeral
      ensures -1 <= ComponentOrder(x, y) <= 1 && ComponentOrder(x, y) == -ComponentOrder(y, x)
    {
      CompareTextAntisymmetric(StripTrailingZeros(x), StripTrailingZeros(y));
    }
    forall x: Numeral, y: Numeral, z: Numeral | ComponentOrder(x, y) <= 0 && ComponentOrder(y, z) <= 0
      ensures ComponentOrder(x, z) <= 0
    {
      ComponentOrderTransitive(x, y, z);
    }
  }

  lemma ComponentOrderTransitive(x: Numeral, y: Numeral, z: Numeral)
    requires ComponentOrder(x, y) <= 0 && ComponentOrder(y, z) <= 0
    ensures ComponentOrder(x, z) <= 0
  {
    if x != "" && y != "" && z != "" {
      if LeadingZero(x) && !LeadingZero(z) {
        LeadingZeroIsSmaller(x, z);
      } else if LeadingZero(y) && !LeadingZero(x) {
        LeadingZeroIsSmaller(y, x);
      } else if LeadingZero(z) && !LeadingZero(y) {
        LeadingZeroIsSmaller(z, y);
      } else if LeadingZero(x) {
        CompareTextTransitive(StripTrailingZeros(x), StripTrailingZeros(y), StripTrailingZeros(z));
      }
    }
  }

  // ----- the key order

  /** The text compared for a suffix number: "0" when absent, "-1" for a missing suffix. */
  datatype SuffixText = SuffixText(kind: SuffixKind, number: string)

  datatype SuffixRank = SuffixRank(kind: int, number: int)

  /** A missing suffix counts as ("p", -1). */
  const MISSING := SuffixRank(0, -1)

  function RankOf(s: Suffix): (r: SuffixRank) {
    SuffixRank(SuffixValue(s.kind), Value(s.number))
  }

  function RankOrder(x: SuffixRank, y: SuffixRank): (r: int) {
    Then(CompareInt(x.kind, y.kind), CompareInt(x.number, y.number))
  }

  function Ranks(s: seq<Suffix>): (r: seq<SuffixRank>)
    ensures |r| == |s| && forall i :: 0 <= i < |s| ==> r[i] == RankOf(s[i])
  {
    seq(|s|, i requires 0 <= i < |s| => RankOf(s[i]))
  }

  function LetterRank(letter: Option<char>): (r: int) {
    if letter.Some? then letter.value as int else -1
  }

  function MajorOrder(a: Version, b: Version): (r: int) {
    CompareInt(Value(a.major), Value(b.major))
  }

  function ComponentsOrder(a: Version, b: Version): (r: int) {
    Lex<Numeral>(ComponentOrder, "", a.components, b.components)
  }

  function LetterOrder(a: Version, b: Version): (r: int) {
    CompareInt(LetterRank(a.letter), LetterRank(b.letter))
  }

  function SuffixesOrder(a: Version, b: Version): (r: int) {
    Lex(RankOrder, MISSING, Ranks(a.suffixes), Ranks(b.suffixes))
  }

  function RevisionOrder(a: Version, b: Version): (r: int) {
    CompareInt(Value(a.revision), Value(b.revision))
  }

  /** Lexicographic order on (major, components, letter, suffixes, revision). */
  function KeyOrder(): (cmp: (Version, Version) -> int) {
    ThenBy(MajorOrder, FromComponents())
  }

  function FromComponents(): (cmp: (Version, Version) -> int) {
    ThenBy(ComponentsOrder, FromLetter())
  }

  function FromLetter(): (cmp: (Version, Version) -> int) {
    ThenBy(LetterOrder, ThenBy(SuffixesOrder, RevisionOrder))
  }

  lemma ComponentsOrderIsPreorder()
    ensures Preorder(ComponentsOrder)
  {
    ComponentOrderIsPreorder();
    forall a: Version ensures ComponentsOrder(a, a) == 0 {
      LexReflexive<Numeral>(ComponentOrder, "", a.components);
    }
    forall a: Version, b: Version
      ensures -1 <= ComponentsOrder(a, b) <= 1 && ComponentsOrder(a, b) == -ComponentsOrder(b, a)
    {
      LexAntisymmetric<Numeral>(ComponentOrder, "", a.components, b.components);
    }
    forall a: Version, b: Version, c: Version | ComponentsOrder(a, b) <= 0 && ComponentsOrder(b, c) <= 0
      ensures ComponentsOrder(a, c) <= 0
    {
      LexTransitive<Numeral>(ComponentOrder, "", a.components, b.components, c.components);
    }
  }

  lemma SuffixesOrderIsPreorder()
    ensures Preorder(SuffixesOrder)
  {
    assert Preorder(RankOrder);
    forall a: Version ensures SuffixesOrder(a, a) == 0 {
      LexReflexive(RankOrder, MISSING, Ranks(a.suffixes));
    }
    forall a: Version, b: Version
      ensures -1 <= SuffixesOrder(a, b) <= 1 && SuffixesOrder(a, b) == -SuffixesOrder(b, a)
    {
      LexAntisymmetric(RankOrder, MISSING, Ranks(a.suffixes), Ranks(b.suffixes));
    }
    forall a: Version, b: Version, c: Version | SuffixesOrder(a, b) <= 0 && SuffixesOrder(b, c) <= 0
      ensures SuffixesOrder(a, c) <= 0
    {
      LexTransitive(RankOrder, MISSING, Ranks(a.suffixes), Ranks(b.suffixes), Ranks(c.suffixes));
    }
  }

  lemma NumbersArePreorders()
    ensures Preorder(MajorOrder) && Preorder(LetterOrder) && Preorder(RevisionOrder)
  {
  }

  lemma FromLetterIsPreorder()
    ensures Preorder(FromLetter())
  {
    SuffixesOrderIsPreorder();
    NumbersArePreorders();
    ThenByIsPreorder(SuffixesOrder, RevisionOrder);
    ThenByIsPreorder(LetterOrder, ThenBy(SuffixesOrder, RevisionOrder));
  }

  lemma FromComponentsIsPreorder()
    ensures Preorder(FromComponents())
  {
    ComponentsOrderIsPreorder();
    FromLetterIsPreorder();
    ThenByIsPreorder(ComponentsOrder, FromLetter());
  }

  /** Portage comparison is a total preorder on all versions the expression captures. */
  lemma KeyOrderIsPreorder()
    ensures Preorder(KeyOrder())
  {
    NumbersArePreorders();
    FromComponentsIsPreorder();
    ThenByIsPreorder(MajorOrder, FromComponents());
  }

  // ----- what the order says

  function WithSuffix(v: Version, kind: SuffixKind, number: Numeral): (w: Version) {
    v.(suffixes := v.suffixes + [Suffix(kind, number)])
  }

  lemma KeyOrderIs(a: Version, b: Version)
    ensures KeyOrder()(a, b) == Then(MajorOrder(a, b), Then(ComponentsOrder(a, b), Then(LetterOrder(a, b),
                                     Then(SuffixesOrder(a, b), RevisionOrder(a, b)))))
  {
  }

  lemma SameComponents(a: Version, b: Version)
    requires a.major == b.major && a.components == b.components
    ensures KeyOrder()(a, b) == Then(LetterOrder(a, b), Then(SuffixesOrder(a, b), RevisionOrder(a, b)))
  {
    KeyOrderIs(a, b);
    ComponentOrderIsPreorder();
    LexReflexive<Numeral>(ComponentOrder, "", a.components);
  }

  /** Suffix lists with a common front compare as what follows it. */
  lemma SuffixesAfter(front: seq<Suffix>, a: seq<Suffix>, b: seq<Suffix>)
    ensures Lex(RankOrder, MISSING, Ranks(front + a), Ranks(front + b)) == Lex(RankOrder, MISSING, Ranks(a), Ranks(b))
  {
    assert Ranks(front + a) == Ranks(front) + Ranks(a) && Ranks(front + b) == Ranks(front) + Ranks(b);
    LexSkipPrefix(RankOrder, MISSING, Ranks(front), Ranks(a), Ranks(b));
  }

  lemma OneSuffix(x: Suffix, y: Suffix)
    ensures Lex(RankOrder, MISSING, Ranks([x]), Ranks([y])) == RankOrder(RankOf(x), RankOf(y))
    ensures Lex(RankOrder, MISSING, Ranks([x]), Ranks([])) == RankOrder(RankOf(x), MISSING)
    ensures Lex(RankOrder, MISSING, Ranks([]), Ranks([x])) == RankOrder(MISSING, RankOf(x))
  {
    assert Ranks([x]) == [RankOf(x)] && Ranks([y]) == [RankOf(y)] && Ranks([]) == [];
  }

  /** Two versions that agree up to their last suffixes compare as those do. */
  lemma LastSuffixDecides(v: Version, x: Suffix, y: Suffix)
    ensures KeyOrder()(WithSuffix(v, x.kind, x.number), WithSuffix(v, y.kind, y.number)) == RankOrder(RankOf(x), RankOf(y))
    ensures KeyOrder()(WithSuffix(v, x.kind, x.number), v) == RankOrder(RankOf(x), MISSING)
    ensures KeyOrder()(v, WithSuffix(v, x.kind, x.number)) == RankOrder(MISSING, RankOf(x))
  {
    var vx, vy := WithSuffix(v, x.kind, x.number), WithSuffix(v, y.kind, y.number);
    SameComponents(vx, vy);
    SameComponents(vx, v);
    SameComponents(v, vx);
    SuffixesAfter(v.suffixes, [x], [y]);
    SuffixesAfter(v.suffixes, [x], []);
    SuffixesAfter(v.suffixes, [], [x]);
    assert v.suffixes + [] == v.suffixes;
    OneSuffix(x, y);
  }

  /** alpha < beta < pre < rc < no suffix < p, whatever their numbers. */
  lemma SuffixLadder(v: Version, a: Numeral, b: Numeral, c: Numeral, d: Numeral, e: Numeral)
    ensures KeyOrder()(WithSuffix(v, Alpha, a), WithSuffix(v, Beta, b)) == -1
    ensures KeyOrder()(WithSuffix(v, Beta, b), WithSuffix(v, Pre, c)) == -1
    ensures KeyOrder()(WithSuffix(v, Pre, c), WithSuffix(v, Rc, d)) == -1
    ensures KeyOrder()(WithSuffix(v, Rc, d), v) == -1
    ensures KeyOrder()(v, WithSuffix(v, P, e)) == -1
  {
    LastSuffixDecides(v, Suffix(Alpha, a), Suffix(Beta, b));
    LastSuffixDecides(v, Suffix(Beta, b), Suffix(Pre, c));
    LastSuffixDecides(v, Suffix(Pre, c), Suffix(Rc, d));
    LastSuffixDecides(v, Suffix(Rc, d), Suffix(P, e));
    LastSuffixDecides(v, Suffix(P, e), Suffix(P, e));
  }

  /** Within one kind the suffix number decides; an absent number is 0. */
  lemma SuffixNumberDecides(v: Version, kind: SuffixKind, m: Numeral, n: Numeral)
    ensures KeyOrder()(WithSuffix(v, kind, m), WithSuffix(v, kind, n)) == CompareInt(Value(m), Value(n))
  {
    LastSuffixDecides(v, Suffix(kind, m), Suffix(kind, n));
  }

  /** How two components compare: by value, or as decimal fractions once one has a leading zero. */
  lemma ComponentCases(x: Digits, y: Digits)
    ensures x[0] != '0' && y[0] != '0' ==> ComponentOrder(x, y) == CompareInt(Value(x), Value(y))
    ensures x[0] == '0' || y[0] == '0' ==> ComponentOrder(x, y) == Lex(CompareChar, '0', x, y)
    ensures x[0] == '0' && y[0] != '0' ==> ComponentOrder(x, y) == -1
  {
    StrippedIsFraction(x, y);
    if x[0] == '0' && y[0] != '0' { LeadingZeroIsSmaller(x, y); }
  }

  lemma ComponentsAfter(common: seq<Digits>, x: Digits, s: seq<Digits>, y: Digits, t: seq<Digits>)
    ensures Lex<Numeral>(ComponentOrder, "", common + ([x] + s), common) == 1
    ensures ComponentOrder(x, y) != 0 ==>
              Lex<Numeral>(ComponentOrder, "", common + ([x] + s), common + ([y] + t)) == ComponentOrder(x, y)
  {
    ComponentOrderIsPreorder();
    LexSkipPrefix<Numeral>(ComponentOrder, "", common, [x] + s, []);
    LexSkipPrefix<Numeral>(ComponentOrder, "", common, [x] + s, [y] + t);
    var none: seq<Numeral> := [];
    assert common + none == common;
  }

  /** A version with more components is larger, and the first pair of components that differs decides. */
  lemma ComponentsDecide(v: Version, common: seq<Digits>, x: Digits, s: seq<Digits>, y: Digits, t: seq<Digits>)
    ensures KeyOrder()(v.(components := common + ([x] + s)), v.(components := common)) == 1
    ensures ComponentOrder(x, y) != 0 ==>
              KeyOrder()(v.(components := common + ([x] + s)), v.(components := common + ([y] + t))) == ComponentOrder(x, y)
  {
    var a, b := v.(components := common + ([x] + s)), v.(components := common + ([y] + t));
    ComponentsAfter(common, x, s, y, t);
    KeyOrderIs(a, v.(components := common));
    KeyOrderIs(a, b);
  }

  /** Major numbers decide first; after equal components a letter beats none and later letters beat earlier ones. */
  lemma LettersAndMajorsDecide(v: Version, w: Version, c: char, d: char)
    ensures Value(v.major) < Value(w.major) ==> KeyOrder()(v, w) == -1
    ensures KeyOrder()(v.(letter := None), v.(letter := Some(c), suffixes := w.suffixes)) == -1
    ensures c < d ==> KeyOrder()(v.(letter := Some(c)), v.(letter := Some(d), suffixes := w.suffixes)) == -1
  {
    KeyOrderIs(v, w);
    SameComponents(v.(letter := None), v.(letter := Some(c), suffixes := w.suffixes));
    SameComponents(v.(letter := Some(c)), v.(letter := Some(d), suffixes := w.suffixes));
  }

  /** Versions that differ in the revision alone compare by its number; an absent one is 0. */
  lemma RevisionDecides(v: Version, m: Numeral, n: Numeral)
    ensures KeyOrder()(v.(revision := m), v.(revision := n)) == CompareInt(Value(m), Value(n))
  {
    SameComponents(v.(revision := m), v.(revision := n));
    SuffixesAfter(v.suffixes, [], []);
    assert v.suffixes + [] == v.suffixes;
  }

  // ----- the code

  /** The two integers for one component that both sides have. */
  method ComponentPair(v1: Digits, v2: Digits) returns (i: int, j: int)
    ensures CompareInt(i, j) == PmsOrder(v1, v2)
  {
    var p, q := v1, v2;
    if LeadingZero(p) || LeadingZero(q) {
      RightPaddingIsPms(v1, v2);
      var maxLen := Max(|q|, |p|);
      p, q := PadRight(p, maxLen), PadRight(q, maxLen);
    }
    return Value(p), Value(q);
  }

  /** The integer lists agree with the components from the given index on. */
  ghost predicate Represents(list1: seq<int>, list2: seq<int>, ca: seq<Numeral>, cb: seq<Numeral>) {
    && |list1| == |list2|
    && forall i :: 0 <= i < |list1| ==>
                     CompareInt(list1[i], list2[i]) == ComponentOrder(At<Numeral>(ca, "", i), At<Numeral>(cb, "", i))
  }

  /** The integer lists the code builds for the components, one padded against the other. */
  method BuildLists(vlist1: seq<Digits>, vlist2: seq<Digits>) returns (list1: seq<int>, list2: seq<int>)
    ensures |list1| == Max(|vlist1|, |vlist2|) && Represents(list1, list2, vlist1, vlist2)
  {
    list1, list2 := [], [];
    var index := 0;
    while index < Max(|vlist2|, |vlist1|)
      invariant 0 <= index <= Max(|vlist1|, |vlist2|)
      invariant |list1| == index && Represents(list1, list2, vlist1, vlist2)
    {
      var i, j;
      if |vlist1| <= index {
        i, j := -1, Value(vlist2[index]);
      } else if |vlist2| <= index {
        i, j := Value(vlist1[index]), -1;
      } else {
        i, j := ComponentPair(vlist1[index], vlist2[index]);
      }
      assert CompareInt(i, j) == ComponentOrder(At<Numeral>(vlist1, "", index), At<Numeral>(vlist2, "", index));
      list1, list2 := list1 + [i], list2 + [j];
      index := index + 1;
    }
  }

  /** Integer lists in lexicographic order, a proper prefix being smaller. */
  function ListOrder(list1: seq<int>, list2: seq<int>): (r: int) {
    if list1 == [] && list2 == [] then 0
    else if list1 == [] then -1
    else if list2 == [] then 1
    else Then(CompareInt(list1[0], list2[0]), ListOrder(list1[1..], list2[1..]))
  }

  method CompareLists(list1: seq<int>, list2: seq<int>) returns (r: int)
    ensures r == ListOrder(list1, list2)
  {
    var index := 0;
    while index < Max(|list2|, |list1|)
      invariant 0 <= index <= Min(|list1|, |list2|)
      invariant ListOrder(list1, list2) == ListOrder(list1[index..], list2[index..])
    {
      if |list1| <= index { return -1; }
      if |list2| <= index { return 1; }
      assert list1[index..][1..] == list1[index + 1..] && list2[index..][1..] == list2[index + 1..];
      var c := CompareInt(list1[index], list2[index]);
      if c != 0 { return c; }
      index := index + 1;
    }
    return 0;
  }

  /** Comparing the integer lists compares the components and then what follows them. */
  lemma {:induction false} ListsCompareComponents(list1: seq<int>, list2: seq<int>, ca: seq<Numeral>, cb: seq<Numeral>,
                                                  t1: seq<int>, t2: seq<int>)
    requires Represents(list1, list2, ca, cb) && |list1| == Max(|ca|, |cb|)
    ensures ListOrder(list1 + t1, list2 + t2) == Then(Lex<Numeral>(ComponentOrder, "", ca, cb), ListOrder(t1, t2))
    decreases |list1|
  {
    if list1 == [] {
      assert list1 + t1 == t1 && list2 + t2 == t2;
    } else {
      assert (list1 + t1)[1..] == list1[1..] + t1 && (list2 + t2)[1..] == list2[1..] + t2;
      forall i | 0 <= i < |list1| - 1
        ensures CompareInt(list1[1..][i], list2[1..][i]) ==
                ComponentOrder(At<Numeral>(Tail(ca), "", i), At<Numeral>(Tail(cb), "", i))
      {
        assert At<Numeral>(Tail(ca), "", i) == At<Numeral>(ca, "", i + 1);
        assert At<Numeral>(Tail(cb), "", i) == At<Numeral>(cb, "", i + 1);
      }
      ListsCompareComponents(list1[1..], list2[1..], Tail(ca), Tail(cb), t1, t2);
    }
  }

  function LetterList(letter: Option<char>): (r: seq<int>) {
    if letter.Some? then [letter.value as int] else []
  }

  lemma LettersCompare(a: Version, b: Version)
    ensures ListOrder(LetterList(a.letter), LetterList(b.letter)) == LetterOrder(a, b)
  {
  }

  /** Major number, components and letter, compared as two lists of integers. */
  method CompareNumbers(a: Version, b: Version) returns (r: int)
    ensures r == Then(MajorOrder(a, b), Then(ComponentsOrder(a, b), LetterOrder(a, b)))
  {
    var list1, list2 := BuildLists(a.components, b.components);
    ListsCompareComponents(list1, list2, a.components, b.components, LetterList(a.letter), LetterList(b.letter));
    LettersCompare(a, b);
    var all1, all2 := list1 + LetterList(a.letter), list2 + LetterList(b.letter);
    assert ([Value(a.major)] + all1)[1..] == all1 && ([Value(b.major)] + all2)[1..] == all2;
    r := CompareLists([Value(a.major)] + all1, [Value(b.major)] + all2);
  }

  predicate IsNumberText(s: string) {
    s != "" && AllDigits(if s[0] == '-' then s[1..] else s)
  }

  /** The rank of a suffix as the code reads it: an optional minus sign and digits. */
  function RankOfText(s: SuffixText): (r: SuffixRank)
    requires IsNumberText(s.number)
  {
    SuffixRank(SuffixValue(s.kind),
               if s.number[0] == '-' then -1 * Value(s.number[1..]) else Value(s.number))
  }

  /** The suffix text at an index: a missing suffix reads p-1, a missing number 0. */
  function TextAt(slist: seq<Suffix>, index: nat): (s: SuffixText)
    ensures IsNumberText(s.number)
  {
    if index < |slist| then
      SuffixText(slist[index].kind, if slist[index].number == "" then "0" else slist[index].number)
    else assert AllDigits("-1"[1..]); SuffixText(P, "-1")
  }

  lemma TextRanks(slist: seq<Suffix>, index: nat)
    ensures RankOfText(TextAt(slist, index)) == At(Ranks(slist), MISSING, index)
  {
    assert "1"[..0] == "" && "0"[..0] == "" && "-1"[1..] == "1";
    assert Value("1") == 1 && Value("0") == 0;
  }

  method CompareSuffix(s1: SuffixText, s2: SuffixText) returns (r: int)
    requires IsNumberText(s1.number) && IsNumberText(s2.number)
    ensures r == RankOrder(RankOfText(s1), RankOfText(s2))
  {
    if s1.kind != s2.kind {
      return if SuffixValue(s1.kind) > SuffixValue(s2.kind) then 1 else -1;
    }
    if s1.number != s2.number {
      return CompareInt(RankOfText(s1).number, RankOfText(s2).number);
    }
    return 0;
  }

  method CompareSuffixes(slist1: seq<Suffix>, slist2: seq<Suffix>) returns (r: int)
    ensures r == Lex(RankOrder, MISSING, Ranks(slist1), Ranks(slist2))
  {
    ghost var r1, r2 := Ranks(slist1), Ranks(slist2);
    assert Drop(r1, 0) == r1 && Drop(r2, 0) == r2;
    var index := 0;
    while index < Max(|slist2|, |slist1|)
      invariant 0 <= index <= Max(|slist2|, |slist1|)
      invariant Lex(RankOrder, MISSING, r1, r2) == Lex(RankOrder, MISSING, Drop(r1, index), Drop(r2, index))
    {
      LexStep(RankOrder, MISSING, r1, r2, index);
      TextRanks(slist1, index);
      TextRanks(slist2, index);
      r := CompareSuffix(TextAt(slist1, index), TextAt(slist2, index));
      if r != 0 { return; }
      index := index + 1;
    }
    return 0;
  }

  /** comparePortageVersions computes the key order. */
  method ComparePortageVersions(a: Version, b: Version) returns (r: int)
    ensures r == KeyOrder()(a, b)
  {
    KeyOrderIs(a, b);
    r := CompareNumbers(a, b);
    if r != 0 { return; }
    r := CompareSuffixes(a.suffixes, b.suffixes);
    if r != 0 { return; }
    r := CompareInt(Value(a.revision), Value(b.revision));
  }
}
