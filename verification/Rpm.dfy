/**
 RPM version comparison.

 A version or release string is cut into runs of letters, runs of digits and single tildes; the
 segments are compared pairwise and a rule about the leftover segments settles the rest. The
 result is antisymmetric on all strings but not transitive on all strings; this module shows on
 which strings it is a total preorder, and that this domain cannot be made larger.
 */
module Rpm {
  import opened Decimal
  import opened Order
  import opened Prelude

  /** A non-empty run of ASCII letters. */
  type Letters = s: string | s != "" && forall i :: 0 <= i < |s| ==> IsLetter(s[i]) witness "a"

  datatype Segment = Tilde | Alpha(letters: Letters) | Number(digits: Digits)

  const ZERO := Number("0")

  // ----- cutting a string into segments

  /** All matches of `([a-zA-Z]+)|([0-9]+)|(~)`, left to right. */
  function Segments(s: string): (segs: seq<Segment>)
    decreases |s|
  {
    if s == "" then []
    else if s[0] == '~' then [Tilde] + Segments(s[1..])
    else if IsLetter(s[0]) then
      var k := Run(IsLetter, s);
      [Alpha(s[..k])] + Segments(s[k..])
    else if IsDigit(s[0]) then
      var k := Run(IsDigit, s);
      [Number(s[..k])] + Segments(s[k..])
    else Segments(s[1..])
  }

  function Text(seg: Segment): (t: string)
    ensures t != ""
  {
    match seg
    case Tilde => "~"
    case Alpha(letters) => letters
    case Number(digits) => digits
  }

  /** A string with exactly the given segments, separated by dots. */
  function Render(segs: seq<Segment>): (s: string) {
    if segs == [] then ""
    else if |segs| == 1 then Text(segs[0])
    else Text(segs[0]) + "." + Render(segs[1..])
  }

  /** Cutting off a first segment that ends at the end of the string or before a dot. */
  lemma SegmentsOfFirst(seg: Segment, s: string)
    requires Text(seg) <= s && (|Text(seg)| < |s| ==> s[|Text(seg)|] == '.')
    ensures Segments(s) == [seg] + Segments(s[|Text(seg)|..])
  {
    var t := Text(seg);
    assert s[..|t|] == t;
    match seg
    case Tilde =>
    case Alpha(_) => RunIs(IsLetter, s, |t|);
    case Number(_) => RunIs(IsDigit, s, |t|);
  }

  lemma {:induction false} SegmentsOfRender(segs: seq<Segment>)
    ensures Segments(Render(segs)) == segs
  {
    if segs != [] {
      var s, t := Render(segs), Text(segs[0]);
      SegmentsOfFirst(segs[0], s);
      assert segs == [segs[0]] + segs[1..];
      if |segs| > 1 {
        SegmentsOfRender(segs[1..]);
        assert s[|t|..][1..] == Render(segs[1..]);
        assert Segments(s[|t|..]) == Segments(s[|t|..][1..]);
      }
    }
  }

  /** A character that is no letter, digit or tilde, in the sense of the expression. */
  predicate Separates(c: char) {
    c != '~' && !('a' <= c <= 'z') && !('A' <= c <= 'Z') && !('0' <= c <= '9')
  }

  /** The first run of s is also the first run of a text that goes on with something else. */
  lemma RunOfFront(p: char -> bool, s: string, c: char, t: string)
    requires !p(c)
    ensures Run(p, s + ([c] + t)) == Run(p, s)
  {
    var all := s + ([c] + t);
    var k := Run(p, s);
    assert all[k] == if k < |s| then s[k] else c;
    RunIs(p, all, k);
  }

  /** What a cutting character contributes. */
  function CutMark(c: char): (segs: seq<Segment>) {
    if c == '~' then [Tilde] else []
  }

  lemma Reassociate(head: Segment, a: seq<Segment>, mark: seq<Segment>, b: seq<Segment>)
    ensures [head] + (a + mark + b) == ([head] + a) + mark + b
  {
  }

  /** The slices of a longer text at a cut inside its front. */
  lemma SlicesOfFront(s: string, t: string, k: nat)
    requires 0 < k <= |s|
    ensures (s + t)[0] == s[0] && (s + t)[..k] == s[..k] && (s + t)[k..] == s[k..] + t
  {
  }

  lemma FirstLetters(s: string, c: char, t: string) returns (k: nat, head: Segment)
    requires s != "" && IsLetter(s[0]) && !IsLetter(c)
    ensures 0 < k <= |s|
    ensures Segments(s) == [head] + Segments(s[k..])
    ensures Segments(s + ([c] + t)) == [head] + Segments(s[k..] + ([c] + t))
  {
    RunOfFront(IsLetter, s, c, t);
    k := Run(IsLetter, s);
    SlicesOfFront(s, [c] + t, k);
    head := Alpha(s[..k]);
  }

  lemma FirstDigits(s: string, c: char, t: string) returns (k: nat, head: Segment)
    requires s != "" && IsDigit(s[0]) && !IsDigit(c)
    ensures 0 < k <= |s|
    ensures Segments(s) == [head] + Segments(s[k..])
    ensures Segments(s + ([c] + t)) == [head] + Segments(s[k..] + ([c] + t))
  {
    RunOfFront(IsDigit, s, c, t);
    k := Run(IsDigit, s);
    SlicesOfFront(s, [c] + t, k);
    head := Number(s[..k]);
  }

  /** Cutting off the first segment of a text and of a longer one. */
  lemma FirstSegmentOf(s: string, c: char, t: string) returns (k: nat, head: Segment)
    requires s != "" && (IsLetter(s[0]) || IsDigit(s[0])) && (Separates(c) || c == '~')
    ensures 0 < k <= |s|
    ensures Segments(s) == [head] + Segments(s[k..])
    ensures Segments(s + ([c] + t)) == [head] + Segments(s[k..] + ([c] + t))
  {
    if IsLetter(s[0]) {
      k, head := FirstLetters(s, c, t);
    } else {
      k, head := FirstDigits(s, c, t);
    }
  }

  /** Separators of any kind only cut the text; a tilde cuts it and is a segment itself. */
  lemma {:induction false} SegmentsCut(s: string, c: char, t: string)
    requires Separates(c) || c == '~'
    ensures Segments(s + ([c] + t)) == Segments(s) + CutMark(c) + Segments(t)
    decreases |s|
  {
    var all := s + ([c] + t);
    if s == "" {
      assert all == [c] + t && all[1..] == t;
    } else if IsLetter(s[0]) || IsDigit(s[0]) {
      var k, head := FirstSegmentOf(s, c, t);
      SegmentsCut(s[k..], c, t);
      Reassociate(head, Segments(s[k..]), CutMark(c), Segments(t));
    } else {
      assert all[1..] == s[1..] + ([c] + t);
      SegmentsCut(s[1..], c, t);
      if s[0] == '~' { Reassociate(Tilde, Segments(s[1..]), CutMark(c), Segments(t)); }
    }
  }

  /** A run of ASCII letters or of digits is one segment. */
  lemma RunIsOneSegment(s: string)
    requires s != ""
    ensures (forall i :: 0 <= i < |s| ==> 'a' <= s[i] <= 'z' || 'A' <= s[i] <= 'Z') ==> Segments(s) == [Alpha(s)]
    ensures (forall i :: 0 <= i < |s| ==> '0' <= s[i] <= '9') ==> Segments(s) == [Number(s)]
  {
    if forall i :: 0 <= i < |s| ==> 'a' <= s[i] <= 'z' || 'A' <= s[i] <= 'Z' {
      RunIs(IsLetter, s, |s|);
      assert s[..|s|] == s && s[|s|..] == "";
    } else if forall i :: 0 <= i < |s| ==> '0' <= s[i] <= '9' {
      RunIs(IsDigit, s, |s|);
      assert s[..|s|] == s && s[|s|..] == "";
    }
  }

  // ----- the order the code computes

  function Rank(seg: Segment): (r: int) {
    match seg case Tilde => 0 case Alpha(_) => 1 case Number(_) => 2
  }

  /** Tildes below letters below numbers; letters as text, numbers by value. */
  function SegmentOrder(a: Segment, b: Segment): (r: int) {
    match (a, b)
    case (Alpha(s), Alpha(t)) => CompareText(s, t)
    case (Number(m), Number(n)) => CompareInt(Value(m), Value(n))
    case _ => CompareInt(Rank(a), Rank(b))
  }

  /** The verdict on leftover segments: -1 after a tilde, 0 for literal zeros, else 1. */
  function LeftoverSign(rest: seq<Segment>): (r: int)
    requires rest != []
  {
    if rest[0] == Tilde then -1
    else if forall i :: 0 <= i < |rest| ==> rest[i] == ZERO then 0
    else 1
  }

  function SegmentsOrder(a: seq<Segment>, b: seq<Segment>): (r: int) {
    if a == [] && b == [] then 0
    else if b == [] then LeftoverSign(a)
    else if a == [] then -LeftoverSign(b)
    else Then(SegmentOrder(a[0], b[0]), SegmentsOrder(a[1..], b[1..]))
  }

  function RpmOrder(a: string, b: string): (r: int) {
    SegmentsOrder(Segments(a), Segments(b))
  }

  lemma SegmentOrderIsPreorder()
    ensures Preorder(SegmentOrder)
  {
    forall x: Segment ensures SegmentOrder(x, x) == 0 {
      if x.Alpha? { CompareTextZero(x.letters, x.letters); }
    }
    forall x: Segment, y: Segment
      ensures -1 <= SegmentOrder(x, y) <= 1 && SegmentOrder(x, y) == -SegmentOrder(y, x)
    {
      if x.Alpha? && y.Alpha? { CompareTextAntisymmetric(x.letters, y.letters); }
    }
    forall x: Segment, y: Segment, z: Segment | SegmentOrder(x, y) <= 0 && SegmentOrder(y, z) <= 0
      ensures SegmentOrder(x, z) <= 0
    {
      if x.Alpha? && y.Alpha? && z.Alpha? { CompareTextTransitive(x.letters, y.letters, z.letters); }
    }
  }

  /** Swapping the two strings flips the sign, and every string ties with itself. */
  lemma {:induction false} SegmentsOrderAntisymmetric(a: seq<Segment>, b: seq<Segment>)
    ensures -1 <= SegmentsOrder(a, b) <= 1
    ensures SegmentsOrder(a, b) == -SegmentsOrder(b, a)
    ensures a == b ==> SegmentsOrder(a, b) == 0
  {
    SegmentOrderIsPreorder();
    if a != [] && b != [] {
      assert SegmentOrder(a[0], b[0]) == -SegmentOrder(b[0], a[0]);
      SegmentsOrderAntisymmetric(a[1..], b[1..]);
    }
  }

  lemma RpmOrderAntisymmetric(a: string, b: string)
    ensures -1 <= RpmOrder(a, b) <= 1
    ensures RpmOrder(a, b) == -RpmOrder(b, a)
    ensures RpmOrder(a, a) == 0
  {
    SegmentsOrderAntisymmetric(Segments(a), Segments(b));
    SegmentsOrderAntisymmetric(Segments(a), Segments(a));
  }

  /** Transitive among segment lists of one length. */
  lemma {:induction false} SameLengthTransitive(a: seq<Segment>, b: seq<Segment>, c: seq<Segment>)
    requires |a| == |b| == |c|
    requires SegmentsOrder(a, b) <= 0 && SegmentsOrder(b, c) <= 0
    ensures SegmentsOrder(a, c) <= 0
  {
    if a != [] {
      SegmentOrderIsPreorder();
      Chain(SegmentOrder, a[0], b[0], c[0]);
      assert SegmentOrder(b[0], a[0]) == -SegmentOrder(a[0], b[0]);
      if SegmentOrder(a[0], b[0]) == 0 && SegmentOrder(b[0], c[0]) == 0 {
        SameLengthTransitive(a[1..], b[1..], c[1..]);
      }
    }
  }

  // ----- where it is a total preorder

  /** The strings whose last segment, if any, is not a literal "0". */
  predicate NoTrailingZero(segs: seq<Segment>) {
    segs == [] || segs[|segs| - 1] != ZERO
  }

  datatype Item = End | Seg(seg: Segment)

  /** End of version sits between a tilde and every other segment. */
  function ItemOrder(x: Item, y: Item): (r: int) {
    match (x, y)
    case (Seg(a), Seg(b)) => SegmentOrder(a, b)
    case (End, End) => 0
    case (Seg(a), End) => if a == Tilde then -1 else 1
    case (End, Seg(b)) => if b == Tilde then 1 else -1
  }

  function Items(segs: seq<Segment>): (items: seq<Item>)
    ensures |items| == |segs| && forall i :: 0 <= i < |segs| ==> items[i] == Seg(segs[i])
  {
    seq(|segs|, i requires 0 <= i < |segs| => Seg(segs[i]))
  }

  lemma ItemOrderIsPreorder()
    ensures Preorder(ItemOrder)
  {
    SegmentOrderIsPreorder();
    forall x: Item, y: Item ensures -1 <= ItemOrder(x, y) <= 1 && ItemOrder(x, y) == -ItemOrder(y, x) {
      if x.Seg? && y.Seg? { assert SegmentOrder(x.seg, y.seg) == -SegmentOrder(y.seg, x.seg); }
    }
    forall x: Item, y: Item, z: Item | ItemOrder(x, y) <= 0 && ItemOrder(y, z) <= 0
      ensures ItemOrder(x, z) <= 0
    {
      if x.Seg? && y.Seg? && z.Seg? { Chain(SegmentOrder, x.seg, y.seg, z.seg); }
    }
  }

  /** Without a trailing zero the code's order is one fixed padded lexicographic order. */
  lemma {:induction false} OrderIsEndPadded(a: seq<Segment>, b: seq<Segment>)
    requires NoTrailingZero(a) && NoTrailingZero(b)
    ensures SegmentsOrder(a, b) == Lex(ItemOrder, End, Items(a), Items(b))
  {
    if a != [] && b != [] {
      OrderIsEndPadded(a[1..], b[1..]);
      assert Tail(Items(a)) == Items(a[1..]) && Tail(Items(b)) == Items(b[1..]);
    }
  }

  /** On strings without a trailing zero segment the comparison is transitive. */
  lemma NoTrailingZeroTransitive(a: string, b: string, c: string)
    requires NoTrailingZero(Segments(a)) && NoTrailingZero(Segments(b)) && NoTrailingZero(Segments(c))
    requires RpmOrder(a, b) <= 0 && RpmOrder(b, c) <= 0
    ensures RpmOrder(a, c) <= 0
  {
    var x, y, z := Segments(a), Segments(b), Segments(c);
    OrderIsEndPadded(x, y);
    OrderIsEndPadded(y, z);
    OrderIsEndPadded(x, z);
    ItemOrderIsPreorder();
    LexTransitive(ItemOrder, End, Items(x), Items(y), Items(z));
  }

  function DropZeros(segs: seq<Segment>): (t: seq<Segment>)
    ensures t <= segs && NoTrailingZero(t)
    ensures forall i :: |t| <= i < |segs| ==> segs[i] == ZERO
  {
    if NoTrailingZero(segs) then segs else DropZeros(segs[..|segs| - 1])
  }

  /** Comparing past a common prefix. */
  lemma {:induction false} SkipPrefix(p: seq<Segment>, a: seq<Segment>, b: seq<Segment>)
    ensures SegmentsOrder(p + a, p + b) == SegmentsOrder(a, b)
  {
    if p == [] {
      assert p + a == a && p + b == b;
    } else {
      SegmentOrderIsPreorder();
      assert SegmentOrder(p[0], p[0]) == 0;
      assert (p + a)[1..] == p[1..] + a && (p + b)[1..] == p[1..] + b;
      SkipPrefix(p[1..], a, b);
    }
  }

  /**
   After a common front the first segment that differs decides: tildes below letters below numbers,
   letters as text, numbers by value. A tilde in front of the end loses, and anything but literal
   zeros wins.
   */
  lemma FirstSegmentDecides(p: seq<Segment>, a: Segment, s: seq<Segment>, b: Segment, t: seq<Segment>)
    ensures a.Tilde? && !b.Tilde? ==> SegmentsOrder(p + ([a] + s), p + ([b] + t)) == -1
    ensures a.Alpha? && b.Number? ==> SegmentsOrder(p + ([a] + s), p + ([b] + t)) == -1
    ensures a.Number? && b.Number? && Value(a.digits) < Value(b.digits) ==>
              SegmentsOrder(p + ([a] + s), p + ([b] + t)) == -1
    ensures a.Alpha? && b.Alpha? && CompareText(a.letters, b.letters) == -1 ==>
              SegmentsOrder(p + ([a] + s), p + ([b] + t)) == -1
    ensures a.Tilde? ==> SegmentsOrder(p + ([a] + s), p) == -1
    ensures !a.Tilde? && a != Number("0") ==> SegmentsOrder(p + ([a] + s), p) == 1
  {
    SkipPrefix(p, [a] + s, [b] + t);
    SkipPrefix(p, [a] + s, []);
    assert p + [] == p;
    assert ([a] + s)[0] == a;
  }

  const LETTER := Alpha("a")

  lemma LetterAfterZeros(gap: seq<Segment>)
    requires gap != [] && gap[|gap| - 1] == LETTER
    requires forall i :: 0 <= i < |gap| - 1 ==> gap[i] == ZERO
    ensures SegmentsOrder(gap, []) == 1
  {
    assert gap[|gap| - 1] != ZERO;
  }

  lemma OnlyZeros(zeros: seq<Segment>)
    requires forall i :: 0 <= i < |zeros| ==> zeros[i] == ZERO
    ensures SegmentsOrder([], zeros) == 0
  {
  }

  lemma ZeroAboveLetter()
    ensures SegmentsOrder([ZERO], [LETTER]) == 1
  {
    assert SegmentOrder(ZERO, LETTER) == 1;
  }

  lemma ZeroBeatsLetter(front: seq<Segment>)
    ensures SegmentsOrder(front + [ZERO], front + [LETTER]) == 1
  {
    SkipPrefix(front, [ZERO], [LETTER]);
    ZeroAboveLetter();
  }

  /** The zeros that DropZeros cuts off. */
  function CutZeros(front: seq<Segment>): (zeros: seq<Segment>)
    ensures front == DropZeros(front) + zeros
    ensures forall i :: 0 <= i < |zeros| ==> zeros[i] == ZERO
  {
    front[|DropZeros(front)|..]
  }

  lemma LetterWins(core: seq<Segment>, gap: seq<Segment>)
    requires gap != [] && gap[|gap| - 1] == LETTER
    requires forall i :: 0 <= i < |gap| - 1 ==> gap[i] == ZERO
    ensures SegmentsOrder(core + gap, core) == 1
  {
    SkipPrefix(core, gap, []);
    LetterAfterZeros(gap);
    assert core + [] == core;
  }

  lemma LetterBeatsCore(front: seq<Segment>)
    ensures SegmentsOrder(front + [LETTER], DropZeros(front)) == 1
  {
    LetterWins(DropZeros(front), CutZeros(front) + [LETTER]);
    assert front + [LETTER] == DropZeros(front) + (CutZeros(front) + [LETTER]);
  }

  lemma CoreTies(core: seq<Segment>, zeros: seq<Segment>)
    requires forall i :: 0 <= i < |zeros| ==> zeros[i] == ZERO
    ensures SegmentsOrder(core, core + zeros) == 0
  {
    SkipPrefix(core, [], zeros);
    OnlyZeros(zeros);
    assert core + [] == core;
  }

  lemma CoreTiesWithZeros(front: seq<Segment>)
    ensures SegmentsOrder(DropZeros(front), front + [ZERO]) == 0
  {
    CoreTies(DropZeros(front), CutZeros(front) + [ZERO]);
    assert front + [ZERO] == DropZeros(front) + (CutZeros(front) + [ZERO]);
  }

  /** x, y and z break transitivity: z ties with x although x > y > z. */
  ghost predicate Breaks(x: string, y: string, z: string) {
    RpmOrder(z, x) == 0 && RpmOrder(x, y) > 0 && RpmOrder(y, z) > 0
  }

  lemma BreaksFromTriple(x: string, front: seq<Segment>)
    requires Segments(x) == front + [ZERO]
    ensures Breaks(x, Render(front + [LETTER]), Render(DropZeros(front)))
  {
    ZeroBeatsLetter(front);
    LetterBeatsCore(front);
    CoreTiesWithZeros(front);
    SegmentsOfRender(front + [LETTER]);
    SegmentsOfRender(DropZeros(front));
  }

  /** A concrete break: "1.0" > "1.a" > "1", and "1" ties with "1.0". */
  lemma NotTransitive()
    ensures Breaks("1.0", "1.a", "1")
  {
    var one := Number("1");
    SegmentsOfRender([one] + [ZERO]);
    assert Render([ZERO]) == "0" && Render([LETTER]) == "a" && Render([one]) == "1";
    assert ([one] + [ZERO])[1..] == [ZERO] && ([one] + [LETTER])[1..] == [LETTER];
    assert "1" + "." + "0" == "1.0" && "1" + "." + "a" == "1.a";
    BreaksFromTriple("1.0", [one]);
  }

  /** A string with a trailing zero segment breaks transitivity with two strings that have none. */
  lemma TrailingZeroBreaks(x: string) returns (y: string, z: string)
    requires !NoTrailingZero(Segments(x))
    ensures NoTrailingZero(Segments(y)) && NoTrailingZero(Segments(z)) && Breaks(x, y, z)
  {
    var segs := Segments(x);
    var front := segs[..|segs| - 1];
    assert segs == front + [ZERO];
    y, z := Render(front + [LETTER]), Render(DropZeros(front));
    BreaksFromTriple(x, front);
    SegmentsOfRender(front + [LETTER]);
    SegmentsOfRender(DropZeros(front));
  }

  /** The strings without a trailing zero together with one more string. */
  ghost predicate InDomain(s: string, extra: string) {
    NoTrailingZero(Segments(s)) || s == extra
  }

  /**
   The domain is maximal: adding one more string keeps the comparison transitive exactly when
   that string has no trailing zero segment.
   */
  lemma DomainIsMaximal(x: string)
    ensures NoTrailingZero(Segments(x)) <==>
            forall a, b, c | InDomain(a, x) && InDomain(b, x) && InDomain(c, x) ::
              RpmOrder(a, b) <= 0 && RpmOrder(b, c) <= 0 ==> RpmOrder(a, c) <= 0
  {
    if NoTrailingZero(Segments(x)) {
      forall a, b, c | InDomain(a, x) && InDomain(b, x) && InDomain(c, x)
                       && RpmOrder(a, b) <= 0 && RpmOrder(b, c) <= 0
        ensures RpmOrder(a, c) <= 0
      {
        NoTrailingZeroTransitive(a, b, c);
      }
    } else {
      var y, z := TrailingZeroBreaks(x);
      RpmOrderAntisymmetric(x, y);
      RpmOrderAntisymmetric(y, z);
      RpmOrderAntisymmetric(z, x);
      assert InDomain(y, x) && InDomain(z, x) && InDomain(x, x);
      assert RpmOrder(z, y) <= 0 && RpmOrder(y, x) <= 0 && RpmOrder(x, z) <= 0;
      assert RpmOrder(y, x) <= 0 && RpmOrder(x, z) <= 0 && RpmOrder(y, z) > 0;
    }
  }

  // ----- dotted decimals

  /** Segments that are the numbers ns, with zero written as a single "0". */
  ghost predicate Denotes(segs: seq<Segment>, ns: seq<nat>) {
    && |segs| == |ns|
    && forall i :: 0 <= i < |ns| ==>
                     segs[i].Number? && Value(segs[i].digits) == ns[i] && (segs[i] == ZERO <==> ns[i] == 0)
  }

  lemma LeftoverStep(segs: seq<Segment>)
    requires |segs| > 1 && forall i :: 0 <= i < |segs| ==> segs[i].Number?
    ensures LeftoverSign(segs) == if segs[0] == ZERO then LeftoverSign(segs[1..]) else 1
  {
    if i :| 0 <= i < |segs| && segs[i] != ZERO {
      assert i > 0 ==> segs[1..][i - 1] != ZERO;
    }
  }

  lemma {:induction false} LeftoverIsNumeric(segs: seq<Segment>, ns: seq<nat>)
    requires ns != [] && Denotes(segs, ns)
    ensures LeftoverSign(segs) == Lex<int>(CompareInt, 0, ns, [])
  {
    if |ns| == 1 {
      assert segs == [segs[0]];
      assert Tail<int>(ns) == [] == Tail<int>([]);
    } else {
      LeftoverIsNumeric(segs[1..], ns[1..]);
      LeftoverStep(segs);
    }
  }

  /** Numeric segments compare as zero-padded lexicographic order on their numbers. */
  lemma {:induction false} DecimalsOrder(a: seq<Segment>, ms: seq<nat>, b: seq<Segment>, ns: seq<nat>)
    requires Denotes(a, ms) && Denotes(b, ns)
    ensures SegmentsOrder(a, b) == Lex<int>(CompareInt, 0, ms, ns)
  {
    CompareIntIsPreorder();
    if ms != [] && ns != [] {
      DecimalsOrder(a[1..], ms[1..], b[1..], ns[1..]);
    } else if ms != [] {
      LeftoverIsNumeric(a, ms);
    } else if ns != [] {
      LeftoverIsNumeric(b, ns);
      LexAntisymmetric<int>(CompareInt, 0, ms, ns);
    }
  }

  function Numbers(ns: seq<nat>): (segs: seq<Segment>)
    ensures |segs| == |ns| && forall i :: 0 <= i < |ns| ==> segs[i] == Number(PrintNat(ns[i]))
  {
    seq(|ns|, i requires 0 <= i < |ns| => Number(PrintNat(ns[i])))
  }

  lemma PrintedZero(n: nat)
    ensures PrintNat(n) == "0" <==> n == 0
  {
    assert "0"[..0] == "";
  }

  lemma NumbersDenote(ns: seq<nat>)
    ensures Denotes(Numbers(ns), ns)
  {
    forall i | 0 <= i < |ns| ensures Numbers(ns)[i] == ZERO <==> ns[i] == 0 {
      PrintedZero(ns[i]);
    }
  }

  /**
   On dotted decimals without leading zeros the comparison is zero-padded lexicographic order
   on the numbers.
   */
  lemma DottedDecimals(ms: seq<nat>, ns: seq<nat>)
    ensures RpmOrder(Render(Numbers(ms)), Render(Numbers(ns))) == Lex<int>(CompareInt, 0, ms, ns)
  {
    SegmentsOfRender(Numbers(ms));
    SegmentsOfRender(Numbers(ns));
    NumbersDenote(ms);
    NumbersDenote(ns);
    DecimalsOrder(Numbers(ms), ms, Numbers(ns), ns);
  }

  // ----- the code

  /** One round of the segment loop; 0 lets the loop go on. */
  method CompareSegment(x: Segment, y: Segment) returns (r: int)
    ensures r == SegmentOrder(x, y)
  {
    var s, t := Text(x), Text(y);
    if s[0] == '~' || t[0] == '~' {
      if s[0] != '~' { return 1; }
      if t[0] != '~' { return -1; }
    }
    if IsDigit(s[0]) {
      if !IsDigit(t[0]) { return 1; }
      CompareTrimmedIsNumeric(s, t);
      s, t := TrimLeadingZeros(s), TrimLeadingZeros(t);
      if |s| > |t| { return 1; } else if |t| > |s| { return -1; }
    } else if IsDigit(t[0]) {
      return -1;
    }
    CompareTextAntisymmetric(s, t);
    CompareTextZero(s, t);
    if CompareText(s, t) < 0 { return -1; } else if CompareText(s, t) > 0 { return 1; }
    return 0;
  }

  /** The segments from lo on, below hi, are literal zeros. */
  predicate ZerosBetween(segs: seq<Segment>, lo: nat, hi: nat) {
    forall j :: lo <= j < hi && j < |segs| ==> segs[j] == ZERO
  }

  lemma LeftoverOf(segs: seq<Segment>, m: nat)
    requires m < |segs| && segs[m] != Tilde
    ensures LeftoverSign(segs[m..]) == if ZerosBetween(segs, m, |segs|) then 0 else 1
  {
    var rest := segs[m..];
    assert forall j :: 0 <= j < |rest| ==> rest[j] == segs[m + j];
    assert forall j :: m <= j < |segs| ==> segs[j] == rest[j - m];
  }

  /** What is left when one side has run out of segments. */
  method CompareLeftovers(segsa: seq<Segment>, segsb: seq<Segment>) returns (r: int)
    ensures var m := Min(|segsa|, |segsb|); r == SegmentsOrder(segsa[m..], segsb[m..])
  {
    var maxSegs, minSegs := Max(|segsa|, |segsb|), Min(|segsa|, |segsb|);
    if |segsa| == |segsb| { return 0; }
    if |segsa| > minSegs && Text(segsa[minSegs])[0] == '~' {
      return -1;
    } else if |segsb| > minSegs && Text(segsb[minSegs])[0] == '~' {
      return 1;
    }
    var segaAll0s, segbAll0s := true, true;
    var i := minSegs;
    while i < maxSegs
      invariant minSegs <= i <= maxSegs
      invariant segaAll0s <==> ZerosBetween(segsa, minSegs, i)
      invariant segbAll0s <==> ZerosBetween(segsb, minSegs, i)
    {
      if i < |segsa| && Text(segsa[i]) != "0" { segaAll0s := false; }
      if i < |segsb| && Text(segsb[i]) != "0" { segbAll0s := false; }
      i := i + 1;
    }
    if |segsa| > minSegs { LeftoverOf(segsa, minSegs); } else { LeftoverOf(segsb, minSegs); }
    if segaAll0s && segbAll0s { return 0; }
    if |segsa| > |segsb| { return 1; }
    return -1;
  }

  /** compareRpmVersions computes RpmOrder. */
  method CompareRpmVersions(a: string, b: string) returns (r: int)
    ensures r == RpmOrder(a, b)
  {
    if a == b {
      RpmOrderAntisymmetric(a, b);
      return 0;
    }
    var segsa, segsb := Segments(a), Segments(b);
    var minSegs := Min(|segsa|, |segsb|);
    var i := 0;
    while i < minSegs
      invariant 0 <= i <= minSegs
      invariant RpmOrder(a, b) == SegmentsOrder(segsa[i..], segsb[i..])
    {
      assert segsa[i..][1..] == segsa[i + 1..] && segsb[i..][1..] == segsb[i + 1..];
      r := CompareSegment(segsa[i], segsb[i]);
      if r != 0 { return; }
      i := i + 1;
    }
    r := CompareLeftovers(segsa, segsb);
  }
}
