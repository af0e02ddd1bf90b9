/**
 Fuzzy version comparison, used when nothing is known about the format. Strings are byte strings:
 a letter that is not ASCII is several bytes long and so never stands directly before a digit,
 which is the only place where letters matter.
 */
module Fuzzy {
  import opened Decimal
  import opened Order
  import opened Prelude

  predicate IsPunctuation(c: char) {
    '!' <= c <= '~' && !('/' < c < ':' || '@' < c < '[' || '`' < c < '{')
  }

  predicate NotPunctuation(c: char) {
    !IsPunctuation(c)
  }

  /** The digit run, the end of the compared text and the end of the part. */
  datatype Parts = Parts(num: nat, cmpTo: nat, skip: nat)

  function PartsOf(v: string): (p: Parts)
    ensures p.num <= p.cmpTo <= p.skip <= |v|
    ensures v != "" ==> p.skip > 0
  {
    var num, end := Run(IsDigit, v), Run(NotPunctuation, v);
    DigitsBeforePunctuation(v);
    if num == |v| then Parts(num, num, num)
    else if end == |v| then Parts(num, |v|, |v|)
    else Parts(num, end, end + 1)
  }

  lemma DigitsBeforePunctuation(v: string)
    ensures Run(IsDigit, v) <= Run(NotPunctuation, v)
  {
  }

  /** The ASCII punctuation characters. */
  lemma PunctuationIs(c: char)
    ensures IsPunctuation(c) <==> '!' <= c <= '/' || ':' <= c <= '@' || '[' <= c <= '`' || '{' <= c <= '~'
  {
  }

  /**
   A part is a digit run, the text after it up to the first punctuation character, and that character;
   the digits and the text are compared, the character is skipped.
   */
  lemma PartsMean(digits: Numeral, text: string, rest: string)
    requires forall i :: 0 <= i < |text| ==> !IsPunctuation(text[i])
    requires text != "" ==> !IsDigit(text[0])
    requires rest != "" ==> IsPunctuation(rest[0])
    ensures PartsOf(digits + text + rest) ==
            Parts(|digits|, |digits| + |text|, |digits| + |text| + if rest == "" then 0 else 1)
  {
    var v, end := digits + text + rest, |digits| + |text|;
    assert |digits| < |v| ==> v[|digits|] == (if text != "" then text[0] else rest[0]);
    RunIs(IsDigit, v, |digits|);
    assert forall i :: 0 <= i < |digits| ==> v[i] == digits[i];
    assert forall i :: |digits| <= i < end ==> v[i] == text[i - |digits|];
    assert rest != "" ==> v[end] == rest[0];
    RunIs(NotPunctuation, v, end);
  }

  /** A letter directly followed by a digit ends just before k. */
  predicate BoundaryAt(s: string, k: nat) {
    0 < k < |s| && IsLetter(s[k - 1]) && IsDigit(s[k])
  }

  /** The first letter-digit boundary at or after k, or |s| + 1. */
  function Boundary(s: string, k: nat): (r: nat)
    requires 0 < k
    ensures r == |s| + 1 || BoundaryAt(s, r)
    ensures forall i :: k <= i < r ==> !BoundaryAt(s, i)
    decreases |s| - k
  {
    if k >= |s| then |s| + 1 else if BoundaryAt(s, k) then k else Boundary(s, k + 1)
  }

  predicate HasPatch(s: string) {
    Boundary(s, 1) <= |s|
  }

  function PatchOrder(left: string, right: string): (r: int) {
    var l, k := Boundary(left, 1), Boundary(right, 1);
    if l <= |left| && k <= |right| then
      var m, n := Atoi(left[l..]), Atoi(right[k..]);
      Then(CompareText(left[..l], right[..k]),
           Then(if m.Some? && n.Some? then CompareInt(m.value, n.value) else 0, CompareText(left, right)))
    else CompareText(left, right)
  }

  /** The order of two compared texts once their digit runs have one length. */
  function PieceOrder(x: string, y: string): (r: int) {
    if HasPatch(x) && HasPatch(y) then PatchOrder(x, y) else CompareText(x, y)
  }

  /** The compared text of s, left-padded so that its digit run is at least as long as num. */
  function Piece(s: string, num: nat): (t: string) {
    var p := PartsOf(s);
    Zeros(if num > p.num then num - p.num else 0) + s[..p.cmpTo]
  }

  function RoundOrder(s1: string, s2: string): (r: int) {
    PieceOrder(Piece(s1, PartsOf(s2).num), Piece(s2, PartsOf(s1).num))
  }

  /** The rounds of the loop: 0 when one side runs out first. */
  function Rounds(s1: string, s2: string): (r: int)
    decreases |s1| + |s2|
  {
    if s1 == "" || s2 == "" then 0
    else Then(RoundOrder(s1, s2), Rounds(s1[PartsOf(s1).skip..], s2[PartsOf(s2).skip..]))
  }

  function StripLeadingV(s: string): (t: string) {
    if s != "" && (s[0] == 'v' || s[0] == 'V') then s[1..] else s
  }

  function FuzzyOrder(v1: string, v2: string): (r: int) {
    var a, b := StripLeadingV(v1), StripLeadingV(v2);
    Then(Rounds(a, b), CompareInt(|a|, |b|))
  }

  /** Compared texts without a letter directly before a digit on both sides compare as text. */
  lemma PlainPieces(x: string, y: string)
    requires (forall i :: 0 <= i < |x| - 1 ==> !(IsLetter(x[i]) && IsDigit(x[i + 1])))
             || (forall i :: 0 <= i < |y| - 1 ==> !(IsLetter(y[i]) && IsDigit(y[i + 1])))
    ensures PieceOrder(x, y) == CompareText(x, y)
  {
    if HasPatch(x) { assert BoundaryAt(x, Boundary(x, 1)); }
    if HasPatch(y) { assert BoundaryAt(y, Boundary(y, 1)); }
  }

  /** A digit run, text without punctuation, and nothing or a punctuation character with more after it. */
  predicate IsCut(s: string, digits: Numeral, text: string, rest: string) {
    && s == digits + text + rest
    && (forall i :: 0 <= i < |text| ==> !IsPunctuation(text[i]))
    && (text != "" ==> !IsDigit(text[0]))
    && (rest != "" ==> IsPunctuation(rest[0]))
  }

  function AfterCut(rest: string): (s: string) {
    if rest == "" then "" else rest[1..]
  }

  lemma OnePart(s: string, digits: Numeral, text: string, rest: string, num: nat)
    requires IsCut(s, digits, text, rest)
    ensures PartsOf(s).num == |digits|
    ensures Piece(s, num) == Zeros(if num > |digits| then num - |digits| else 0) + (digits + text)
    ensures s[PartsOf(s).skip..] == AfterCut(rest)
  {
    PartsMean(digits, text, rest);
    assert s[..|digits| + |text|] == digits + text;
    assert s[|digits| + |text|..] == rest;
  }

  lemma FirstRound(s1: string, d1: Numeral, t1: string, r1: string, s2: string, d2: Numeral, t2: string, r2: string)
    requires IsCut(s1, d1, t1, r1) && IsCut(s2, d2, t2, r2)
    ensures var n := Max(|d1|, |d2|);
            RoundOrder(s1, s2) == PieceOrder(Zeros(n - |d1|) + (d1 + t1), Zeros(n - |d2|) + (d2 + t2))
  {
    OnePart(s1, d1, t1, r1, |d2|);
    OnePart(s2, d2, t2, r2, |d1|);
  }

  /**
   One part of each side: the compared texts, with the shorter digit run padded with zeros, decide
   if they differ; otherwise what follows the parts does.
   */
  lemma FirstPartDecides(s1: string, d1: Numeral, t1: string, r1: string, s2: string, d2: Numeral, t2: string, r2: string)
    requires s1 != "" && s2 != "" && IsCut(s1, d1, t1, r1) && IsCut(s2, d2, t2, r2)
    ensures var n := Max(|d1|, |d2|);
            Rounds(s1, s2) ==
            Then(PieceOrder(Zeros(n - |d1|) + (d1 + t1), Zeros(n - |d2|) + (d2 + t2)), Rounds(AfterCut(r1), AfterCut(r2)))
  {
    FirstRound(s1, d1, t1, r1, s2, d2, t2, r2);
    OnePart(s1, d1, t1, r1, |d2|);
    OnePart(s2, d2, t2, r2, |d1|);
    NextRound(s1, s2);
  }

  lemma NextRound(s1: string, s2: string)
    requires s1 != "" && s2 != ""
    ensures Rounds(s1, s2) == Then(RoundOrder(s1, s2), Rounds(s1[PartsOf(s1).skip..], s2[PartsOf(s2).skip..]))
  {
  }

  // ----- antisymmetry

  lemma PieceOrderAntisymmetric(x: string, y: string)
    ensures -1 <= PieceOrder(x, y) <= 1
    ensures PieceOrder(x, y) == -PieceOrder(y, x)
  {
    CompareTextAntisymmetric(x, y);
    var l, k := Boundary(x, 1), Boundary(y, 1);
    if l <= |x| && k <= |y| { CompareTextAntisymmetric(x[..l], y[..k]); }
  }

  lemma {:induction false} RoundsAntisymmetric(s1: string, s2: string)
    ensures -1 <= Rounds(s1, s2) <= 1
    ensures Rounds(s1, s2) == -Rounds(s2, s1)
    decreases |s1| + |s2|
  {
    if s1 != "" && s2 != "" {
      PieceOrderAntisymmetric(Piece(s1, PartsOf(s2).num), Piece(s2, PartsOf(s1).num));
      RoundsAntisymmetric(s1[PartsOf(s1).skip..], s2[PartsOf(s2).skip..]);
    }
  }

  /** Swapping the two strings flips the sign, on all strings. */
  lemma FuzzyOrderAntisymmetric(v1: string, v2: string)
    ensures -1 <= FuzzyOrder(v1, v2) <= 1
    ensures FuzzyOrder(v1, v2) == -FuzzyOrder(v2, v1)
  {
    RoundsAntisymmetric(StripLeadingV(v1), StripLeadingV(v2));
  }

  predicate LeadsWithV(s: string) {
    s != "" && (s[0] == 'v' || s[0] == 'V')
  }

  /** A v or V put in front makes no difference exactly to a text that does not lead with one already. */
  lemma LeadingVIsIgnored(s: string, v: char)
    requires v == 'v' || v == 'V'
    ensures !LeadsWithV(s) <==>
            forall t :: FuzzyOrder([v] + s, t) == FuzzyOrder(s, t) && FuzzyOrder(t, [v] + s) == FuzzyOrder(t, s)
  {
    assert ([v] + s)[1..] == s;
    if LeadsWithV(s) {
      FuzzyOrderAntisymmetric([v] + s, [v] + s);
      assert FuzzyOrder(s, [v] + s) != 0;
    }
  }

  // ----- dotted decimals

  function Dotted(xs: seq<Digits>): (s: string)
    ensures xs != [] ==> s != "" && IsDigit(s[0])
  {
    if xs == [] then "" else if |xs| == 1 then xs[0] else xs[0] + "." + Dotted(xs[1..])
  }

  /** The first pair of components that differ in value, within the common length. */
  function CommonOrder(xs: seq<Digits>, ys: seq<Digits>): (r: int) {
    if xs == [] || ys == [] then 0
    else Then(CompareInt(Value(xs[0]), Value(ys[0])), CommonOrder(xs[1..], ys[1..]))
  }

  lemma PartsOfDotted(xs: seq<Digits>)
    requires xs != []
    ensures var s, n := Dotted(xs), |xs[0]|;
            && PartsOf(s).num == n && PartsOf(s).cmpTo == n
            && s[..n] == xs[0] && s[PartsOf(s).skip..] == Dotted(xs[1..])
  {
    var s, n := Dotted(xs), |xs[0]|;
    assert s[..n] == xs[0];
    assert forall i :: 0 <= i < n ==> IsDigit(xs[0][i]) && s[i] == xs[0][i];
    RunIs(IsDigit, s, n);
    RunIs(NotPunctuation, s, n);
    if |xs| > 1 {
      assert s[n] == '.' && s[n + 1..] == Dotted(xs[1..]);
    }
  }

  lemma DigitsHaveNoPatch(s: string)
    requires AllDigits(s)
    ensures !HasPatch(s)
  {
  }

  /** Left padding and then comparing as text is numeric comparison. */
  lemma PaddedPiecesAreNumeric(x: Digits, y: Digits, m: nat, n: nat)
    requires m + |x| == n + |y|
    ensures PieceOrder(Zeros(m) + x, Zeros(n) + y) == CompareInt(Value(x), Value(y))
  {
    ValueOfLeftPadded(m, x);
    ValueOfLeftPadded(n, y);
    DigitsHaveNoPatch(Zeros(m) + x);
    SameLengthTextIsNumeric(Zeros(m) + x, Zeros(n) + y);
  }

  lemma RoundOfDotted(xs: seq<Digits>, ys: seq<Digits>)
    requires xs != [] && ys != []
    ensures RoundOrder(Dotted(xs), Dotted(ys)) == CompareInt(Value(xs[0]), Value(ys[0]))
  {
    PartsOfDotted(xs);
    PartsOfDotted(ys);
    var m, n := |xs[0]|, |ys[0]|;
    PaddedPiecesAreNumeric(xs[0], ys[0], if n > m then n - m else 0, if m > n then m - n else 0);
  }

  lemma {:induction false} RoundsOfDotted(xs: seq<Digits>, ys: seq<Digits>)
    ensures Rounds(Dotted(xs), Dotted(ys)) == CommonOrder(xs, ys)
  {
    if xs != [] && ys != [] {
      PartsOfDotted(xs);
      PartsOfDotted(ys);
      RoundOfDotted(xs, ys);
      NextRound(Dotted(xs), Dotted(ys));
      RoundsOfDotted(xs[1..], ys[1..]);
    }
  }

  /**
   On dotted decimal strings the first common component that differs in numeric value decides;
   if there is none, the longer string is the larger.
   */
  lemma DottedDecimals(xs: seq<Digits>, ys: seq<Digits>)
    ensures FuzzyOrder(Dotted(xs), Dotted(ys)) ==
            Then(CommonOrder(xs, ys), CompareInt(|Dotted(xs)|, |Dotted(ys)|))
  {
    RoundsOfDotted(xs, ys);
  }

  // ----- patch numbers

  /** The text ends in a letter and has no letter directly before a digit. */
  predicate IsPatchPrefix(p: string) {
    && p != "" && IsLetter(p[|p| - 1])
    && forall k :: 0 < k < |p| ==> !BoundaryAt(p, k)
  }

  lemma BoundaryOfPatch(p: string, n: Digits)
    requires IsPatchPrefix(p)
    ensures Boundary(p + n, 1) == |p| && HasPatch(p + n)
    ensures (p + n)[..|p|] == p && (p + n)[|p|..] == n
  {
    var s := p + n;
    assert IsDigit(n[0]) && s[|p|] == n[0];
    assert BoundaryAt(s, |p|);
    forall k | 0 < k < |p| ensures !BoundaryAt(s, k) {
      assert !BoundaryAt(p, k);
    }
  }

  lemma AtoiOfDigits(n: Digits)
    ensures Atoi(n) == if Value(n) <= MAX_INT then Some(Value(n)) else None
  {
    assert IsDigit(n[0]);
  }

  /**
   Patch numbers such as p9 and p15: different prefixes compare as text; after equal prefixes the
   numbers compare by value when both fit a machine integer, and as text otherwise or on a tie.
   */
  lemma PatchNumbers(p: string, m: Digits, q: string, n: Digits)
    requires IsPatchPrefix(p) && IsPatchPrefix(q)
    ensures p != q ==> PieceOrder(p + m, q + n) == CompareText(p, q)
    ensures p == q && Value(m) <= MAX_INT && Value(n) <= MAX_INT ==>
              PieceOrder(p + m, q + n) == Then(CompareInt(Value(m), Value(n)), CompareText(m, n))
    ensures p == q && (Value(m) > MAX_INT || Value(n) > MAX_INT) ==> PieceOrder(p + m, q + n) == CompareText(m, n)
  {
    BoundaryOfPatch(p, m);
    BoundaryOfPatch(q, n);
    AtoiOfDigits(m);
    AtoiOfDigits(n);
    CompareTextZero(p, q);
    if p == q { CompareTextCommonPrefix(p, m, n); }
  }

  // ----- the code

  method ParseVersionParts(v: string) returns (num: nat, cmpTo: nat, skip: nat)
    ensures Parts(num, cmpTo, skip) == PartsOf(v)
  {
    num := 0;
    while num < |v|
      invariant 0 <= num <= |v|
      invariant forall i :: 0 <= i < num ==> IsDigit(v[i])
    {
      if v[num] < '0' || v[num] > '9' { break; }
      num := num + 1;
    }
    RunIs(IsDigit, v, num);
    if num == |v| { return num, num, num; }
    skip := 0;
    while skip < |v|
      invariant 0 <= skip <= |v|
      invariant forall i :: 0 <= i < skip ==> NotPunctuation(v[i])
    {
      if IsPunctuation(v[skip]) { break; }
      skip := skip + 1;
    }
    RunIs(NotPunctuation, v, skip);
    if skip == |v| { return num, |v|, |v|; }
    return num, skip, skip + 1;
  }

  method LeftPad(s: string, n: nat) returns (t: string)
    ensures t == Zeros(n) + s
  {
    var sb := "";
    var i := 0;
    while i < n
      invariant 0 <= i <= n
      invariant sb == Zeros(i)
    {
      sb := sb + ['0'];
      i := i + 1;
    }
    t := sb + s;
  }

  method HasPatchNumber(segment: string) returns (found: bool)
    ensures found <==> HasPatch(segment)
  {
    var i := 0;
    while i < |segment|
      invariant 0 <= i <= |segment|
      invariant forall j :: 1 <= j <= i ==> !BoundaryAt(segment, j)
    {
      if IsLetter(segment[i]) && i < |segment| - 1 {
        if IsDigit(segment[i + 1]) {
          assert BoundaryAt(segment, i + 1);
          return true;
        }
      }
      i := i + 1;
    }
    return false;
  }

  /** fuzzyVersionComparison terminates and computes FuzzyOrder. */
  method FuzzyVersionComparison(v1: string, v2: string) returns (r: int)
    ensures r == FuzzyOrder(v1, v2)
  {
    var a, b := StripLeadingV(v1), StripLeadingV(v2);
    var s1, s2 := a, b;
    while |s1| > 0 && |s2| > 0
      invariant Rounds(a, b) == Rounds(s1, s2)
      decreases |s1| + |s2|
    {
      var num1, cmpTo1, skip1 := ParseVersionParts(s1);
      var num2, cmpTo2, skip2 := ParseVersionParts(s2);
      var ns1, ns2 := s1[..cmpTo1], s2[..cmpTo2];
      assert Zeros(0) + ns1 == ns1 && Zeros(0) + ns2 == ns2;
      if num1 > num2 {
        ns2 := LeftPad(ns2, num1 - num2);
      } else if num1 < num2 {
        ns1 := LeftPad(ns1, num2 - num1);
      }
      assert ns1 == Piece(s1, num2) && ns2 == Piece(s2, num1);
      var p1 := HasPatchNumber(ns1);
      var p2 := HasPatchNumber(ns2);
      var cmp := if p1 && p2 then PatchOrder(ns1, ns2) else CompareText(ns1, ns2);
      if cmp != 0 { return cmp; }
      s1, s2 := s1[skip1..], s2[skip2..];
    }
    if |a| > |b| { return 1; }
    if |b| > |a| { return -1; }
    return 0;
  }
}
