/**
 Range expressions: an OR of AND groups of `operator version` units. The scanner turns a token
 sequence into groups of texts, the evaluator decides whether a version satisfies the groups.
 */
module RangeExpressions {
  import opened Order
  import opened Prelude

  type Token = string

  const COMMA := ","
  const BAR := "|"

  predicate IsParen(t: Token) {
    t == "(" || t == ")"
  }

  predicate ParenFree(tokens: seq<Token>) {
    forall i :: 0 <= i < |tokens| ==> !IsParen(tokens[i])
  }

  // ----- the scanner as a state machine

  /** The text being built, the AND group being built, the finished groups, the previous token. */
  datatype Scan = Scan(buf: string, andGroup: seq<string>, orGroups: seq<seq<string>>, last: Token)

  const START := Scan("", [], [], "")

  function CaptureText(s: Scan): (r: Scan) {
    if s.buf != "" then s.(andGroup := s.andGroup + [s.buf], buf := "") else s
  }

  function CaptureGroup(s: Scan): (r: Scan) {
    if s.andGroup != [] then s.(orGroups := s.orGroups + [s.andGroup], andGroup := []) else s
  }

  function Step(s: Scan, t: Token): (r: Scan) {
    var s' :=
      if t == COMMA then CaptureText(s)
      else if t == BAR && s.last == BAR then CaptureGroup(CaptureText(s))
      else if t == BAR then s
      else s.(buf := s.buf + t);
    s'.(last := t)
  }

  function Steps(s: Scan, tokens: seq<Token>): (r: Scan)
    decreases |tokens|
  {
    if tokens == [] then s else Steps(Step(s, tokens[0]), tokens[1..])
  }

  function Finish(s: Scan): (groups: seq<seq<string>>) {
    CaptureGroup(CaptureText(s)).orGroups
  }

  /** The groups of a token sequence without parentheses. */
  function Groups(tokens: seq<Token>): (groups: seq<seq<string>>) {
    Finish(Steps(START, tokens))
  }

  /** scanExpression: None is the error for a parenthesis. */
  method ScanExpression(tokens: seq<Token>) returns (r: Option<seq<seq<string>>>)
    ensures r.None? <==> !ParenFree(tokens)
    ensures r.Some? ==> r.value == Groups(tokens)
  {
    var orGroups: seq<seq<string>>, andGroup: seq<string>, buf, lastToken := [], [], "", "";
    var i := 0;
    while i < |tokens|
      invariant 0 <= i <= |tokens|
      invariant ParenFree(tokens[..i])
      invariant Steps(Scan(buf, andGroup, orGroups, lastToken), tokens[i..]) == Steps(START, tokens)
    {
      var currentToken := tokens[i];
      assert tokens[i..][1..] == tokens[i + 1..];
      assert tokens[..i + 1] == tokens[..i] + [currentToken];
      if currentToken == COMMA {
        if |buf| > 0 { andGroup, buf := andGroup + [buf], ""; }
      } else if currentToken == BAR && lastToken == BAR {
        if |buf| > 0 { andGroup, buf := andGroup + [buf], ""; }
        if |andGroup| > 0 { orGroups, andGroup := orGroups + [andGroup], []; }
      } else if IsParen(currentToken) {
        return None;
      } else if currentToken != BAR {
        buf := buf + currentToken;
      }
      lastToken := currentToken;
      i := i + 1;
    }
    if |buf| > 0 { andGroup, buf := andGroup + [buf], ""; }
    if |andGroup| > 0 { orGroups, andGroup := orGroups + [andGroup], []; }
    assert tokens[..i] == tokens;
    return Some(orGroups);
  }

  // ----- scanning distributes over ||

  lemma {:induction false} StepsConcat(s: Scan, a: seq<Token>, b: seq<Token>)
    ensures Steps(s, a + b) == Steps(Steps(s, a), b)
    decreases |a|
  {
    if a == [] {
      assert a + b == b;
    } else {
      assert (a + b)[1..] == a[1..] + b;
      StepsConcat(Step(s, a[0]), a[1..], b);
    }
  }

  lemma OneStep(s: Scan, t: Token)
    ensures Steps(s, [t]) == Step(s, t)
  {
    assert [t][1..] == [];
    assert Steps(s, [t]) == Steps(Step(s, t), [t][1..]);
  }

  /** Groups finished earlier are carried along untouched. */
  lemma {:induction false} StepsFrame(done: seq<seq<string>>, s: Scan, tokens: seq<Token>)
    ensures Steps(s.(orGroups := done + s.orGroups), tokens) ==
            Steps(s, tokens).(orGroups := done + Steps(s, tokens).orGroups)
    decreases |tokens|
  {
    if tokens != [] {
      var s' := Step(s, tokens[0]);
      assert done + (s.orGroups + [CaptureText(s).andGroup]) == done + s.orGroups + [CaptureText(s).andGroup];
      assert Step(s.(orGroups := done + s.orGroups), tokens[0]) == s'.(orGroups := done + s'.orGroups);
      StepsFrame(done, s', tokens[1..]);
    }
  }

  lemma FinishFrame(done: seq<seq<string>>, s: Scan)
    ensures Finish(s.(orGroups := done + s.orGroups)) == done + Finish(s)
  {
    assert done + (s.orGroups + [CaptureText(s).andGroup]) == done + s.orGroups + [CaptureText(s).andGroup];
  }

  /** With nothing pending, a preceding bar makes no difference. */
  lemma LastBarIsHarmless(tokens: seq<Token>)
    ensures Finish(Steps(START.(last := BAR), tokens)) == Groups(tokens)
  {
    if tokens != [] {
      assert Step(START.(last := BAR), tokens[0]) == Step(START, tokens[0]);
    }
  }

  function OrJoin(a: seq<Token>, b: seq<Token>): (t: seq<Token>) {
    a + [BAR, BAR] + b
  }

  /** Two bars finish everything pending, whatever the token before them. */
  lemma TwoBars(s: Scan)
    ensures Steps(s, [BAR, BAR]) == START.(orGroups := Finish(s), last := BAR)
  {
    OneStep(s, BAR);
    OneStep(Step(s, BAR), BAR);
    assert [BAR, BAR] == [BAR] + [BAR];
    StepsConcat(s, [BAR], [BAR]);
  }

  /** Scanning a || b yields the groups of a followed by the groups of b. */
  lemma ScanOr(a: seq<Token>, b: seq<Token>)
    ensures Groups(OrJoin(a, b)) == Groups(a) + Groups(b)
  {
    var done := Groups(a);
    assert OrJoin(a, b) == a + ([BAR, BAR] + b);
    StepsConcat(START, a, [BAR, BAR] + b);
    StepsConcat(Steps(START, a), [BAR, BAR], b);
    TwoBars(Steps(START, a));
    var empty := START.(last := BAR);
    assert done + empty.orGroups == done;
    StepsFrame(done, empty, b);
    FinishFrame(done, Steps(empty, b));
    LastBarIsHarmless(b);
  }

  predicate IsPlain(t: Token) {
    t != "" && t != COMMA && t != BAR
  }

  lemma OneText(a: Token)
    requires IsPlain(a)
    ensures Step(START, a) == Scan(a, [], [], a) && Groups([a]) == [[a]]
  {
    assert "" + a == a;
    assert [a][1..] == [];
    assert Steps(START, [a]) == Steps(Step(START, a), []);
    assert CaptureText(Scan(a, [], [], a)).andGroup == [a];
  }

  lemma ThreeTokens(a: Token, t: Token, b: Token)
    ensures Steps(START, [a, t, b]) == Step(Step(Step(START, a), t), b)
    ensures Steps(START, [a, b]) == Step(Step(START, a), b)
  {
    assert [a, t, b] == [a] + [t] + [b] && [a, b] == [a] + [b];
    StepsConcat(START, [a] + [t], [b]);
    StepsConcat(START, [a], [t]);
    StepsConcat(START, [a], [b]);
    OneStep(START, a);
    OneStep(Step(START, a), t);
    OneStep(Step(Step(START, a), t), b);
    OneStep(Step(START, a), b);
  }

  /** A comma ends a text, a single bar is ignored, and two bars end a group. */
  lemma SeparatorsMean(a: Token, b: Token)
    requires IsPlain(a) && IsPlain(b)
    ensures Groups([a, ",", b]) == [[a, b]]
    ensures Groups([a, "|", b]) == Groups([a, b]) == [[a + b]]
    ensures Groups([a, "|", "|", b]) == [[a], [b]]
  {
    OneText(a);
    OneText(b);
    ThreeTokens(a, ",", b);
    ThreeTokens(a, "|", b);
    assert [] + [a] == [a] && [a] + [b] == [a, b] && "" + b == b;
    assert Steps(START, [a, ",", b]) == Scan(b, [a], [], b);
    assert Finish(Scan(b, [a], [], b)) == [] + [[a] + [b]];
    assert Steps(START, [a, "|", b]) == Scan(a + b, [], [], b) == Steps(START, [a, b]);
    var none: seq<string> := [];
    assert none + [a + b] == [a + b];
    assert CaptureText(Scan(a + b, none, [], b)).andGroup == [a + b];
    assert Finish(Steps(START, [a, b])) == [[a + b]];
    assert [a] + [BAR, BAR] + [b] == [a, "|", "|", b];
    ScanOr([a], [b]);
  }

  function OrJoinAll(parts: seq<seq<Token>>): (t: seq<Token>) {
    if parts == [] then [] else if |parts| == 1 then parts[0] else OrJoin(parts[0], OrJoinAll(parts[1..]))
  }

  function GroupsOfAll(parts: seq<seq<Token>>): (groups: seq<seq<string>>) {
    if parts == [] then [] else Groups(parts[0]) + GroupsOfAll(parts[1..])
  }

  lemma {:induction false} ScanOrAll(parts: seq<seq<Token>>)
    ensures Groups(OrJoinAll(parts)) == GroupsOfAll(parts)
  {
    if parts != [] {
      if |parts| == 1 {
        assert GroupsOfAll(parts[1..]) == [];
      } else {
        ScanOr(parts[0], OrJoinAll(parts[1..]));
        ScanOrAll(parts[1..]);
      }
    }
  }

  // ----- printing and scanning back

  /** One text of a group, as the tokens it is made of. */
  predicate IsWord(words: seq<Token>) {
    && words != []
    && forall i :: 0 <= i < |words| ==>
         words[i] != "" && words[i] != COMMA && words[i] != BAR && !IsParen(words[i])
  }

  predicate IsGroup(group: seq<seq<Token>>) {
    group != [] && forall i :: 0 <= i < |group| ==> IsWord(group[i])
  }

  function Flat(words: seq<Token>): (s: string) {
    if words == [] then "" else words[0] + Flat(words[1..])
  }

  function Texts(group: seq<seq<Token>>): (texts: seq<string>) {
    if group == [] then [] else [Flat(group[0])] + Texts(group[1..])
  }

  function PrintGroup(group: seq<seq<Token>>): (t: seq<Token>) {
    if group == [] then [] else if |group| == 1 then group[0] else group[0] + [COMMA] + PrintGroup(group[1..])
  }

  function PrintGroups(groups: seq<seq<seq<Token>>>): (t: seq<Token>) {
    OrJoinAll(seq(|groups|, i requires 0 <= i < |groups| => PrintGroup(groups[i])))
  }

  lemma {:induction false} WordsAccumulate(s: Scan, words: seq<Token>)
    requires words == [] || IsWord(words)
    ensures var r := Steps(s, words);
            r.buf == s.buf + Flat(words) && r.andGroup == s.andGroup && r.orGroups == s.orGroups
    ensures words != [] ==> Flat(words) != ""
    decreases |words|
  {
    if words != [] {
      WordsAccumulate(Step(s, words[0]), words[1..]);
      assert s.buf + words[0] + Flat(words[1..]) == s.buf + (words[0] + Flat(words[1..]));
    } else {
      assert s.buf + "" == s.buf;
    }
  }

  lemma WordIsCaptured(s: Scan, words: seq<Token>)
    requires IsWord(words) && s.buf == ""
    ensures var r := CaptureText(Steps(s, words));
            r.andGroup == s.andGroup + [Flat(words)] && r.orGroups == s.orGroups && r.buf == ""
  {
    WordsAccumulate(s, words);
    assert "" + Flat(words) == Flat(words);
  }

  lemma WordThenComma(s: Scan, words: seq<Token>, rest: seq<Token>)
    requires IsWord(words) && s.buf == ""
    ensures Steps(s, words + [COMMA] + rest) ==
            Steps(Scan("", s.andGroup + [Flat(words)], s.orGroups, COMMA), rest)
  {
    WordIsCaptured(s, words);
    StepsConcat(s, words + [COMMA], rest);
    StepsConcat(s, words, [COMMA]);
    OneStep(Steps(s, words), COMMA);
  }

  lemma {:induction false} GroupAccumulates(s: Scan, group: seq<seq<Token>>)
    requires IsGroup(group) && s.buf == ""
    ensures var r := CaptureText(Steps(s, PrintGroup(group)));
            r.andGroup == s.andGroup + Texts(group) && r.orGroups == s.orGroups && r.buf == ""
    decreases |group|
  {
    var first := [Flat(group[0])];
    if |group| == 1 {
      WordIsCaptured(s, group[0]);
      assert Texts(group[1..]) == [];
      assert Texts(group) == first;
    } else {
      WordThenComma(s, group[0], PrintGroup(group[1..]));
      GroupAccumulates(Scan("", s.andGroup + first, s.orGroups, COMMA), group[1..]);
      assert s.andGroup + (first + Texts(group[1..])) == s.andGroup + first + Texts(group[1..]);
    }
  }

  lemma ScanPrintedGroup(group: seq<seq<Token>>)
    requires IsGroup(group)
    ensures Groups(PrintGroup(group)) == [Texts(group)]
  {
    GroupAccumulates(START, group);
    assert START.andGroup + Texts(group) == Texts(group);
    assert START.orGroups + [Texts(group)] == [Texts(group)];
  }

  /** Printing any list of non-empty groups and scanning it gives the same groups. */
  lemma {:induction false} ScanPrinted(groups: seq<seq<seq<Token>>>)
    requires forall i :: 0 <= i < |groups| ==> IsGroup(groups[i])
    ensures |Groups(PrintGroups(groups))| == |groups|
    ensures forall i :: 0 <= i < |groups| ==> Groups(PrintGroups(groups))[i] == Texts(groups[i])
  {
    var parts := seq(|groups|, i requires 0 <= i < |groups| => PrintGroup(groups[i]));
    ScanOrAll(parts);
    GroupsOfPrinted(groups, parts);
  }

  lemma {:induction false} GroupsOfPrinted(groups: seq<seq<seq<Token>>>, parts: seq<seq<Token>>)
    requires |parts| == |groups|
    requires forall i :: 0 <= i < |groups| ==> IsGroup(groups[i]) && parts[i] == PrintGroup(groups[i])
    ensures |GroupsOfAll(parts)| == |groups|
    ensures forall i :: 0 <= i < |groups| ==> GroupsOfAll(parts)[i] == Texts(groups[i])
  {
    if groups != [] {
      var rest := GroupsOfAll(parts[1..]);
      ScanPrintedGroup(groups[0]);
      GroupsOfPrinted(groups[1..], parts[1..]);
      assert GroupsOfAll(parts) == [Texts(groups[0])] + rest;
      forall i | 0 <= i < |groups| ensures ([Texts(groups[0])] + rest)[i] == Texts(groups[i]) {
        if i > 0 { assert groups[1..][i - 1] == groups[i]; }
      }
    }
  }

  // ----- evaluation

  datatype Operator = EQ | GT | GTE | LT | LTE

  datatype Unit<V> = Unit(op: Operator, version: V)

  /** rangeUnit.Satisfied. */
  predicate Holds(op: Operator, comparison: int) {
    match op
    case EQ => comparison == 0
    case GT => comparison > 0
    case GTE => comparison >= 0
    case LT => comparison < 0
    case LTE => comparison <= 0
  }

  /** The comparison of the installed version with every unit succeeds. */
  ghost predicate Comparable<V>(compare: V -> Option<int>, units: seq<seq<Unit<V>>>) {
    forall i, j :: 0 <= i < |units| && 0 <= j < |units[i]| ==> compare(units[i][j].version).Some?
  }

  ghost predicate GroupHolds<V>(compare: V -> Option<int>, group: seq<Unit<V>>) {
    forall j :: 0 <= j < |group| ==>
                  compare(group[j].version).Some? && Holds(group[j].op, compare(group[j].version).value)
  }

  ghost predicate AnyGroupHolds<V>(compare: V -> Option<int>, units: seq<seq<Unit<V>>>) {
    exists i :: 0 <= i < |units| && GroupHolds(compare, units[i])
  }

  /** satisfiedWithConfig: every unit of every group is compared, so any failure is an error. */
  method Satisfied<V>(compare: V -> Option<int>, units: seq<seq<Unit<V>>>) returns (r: Option<bool>)
    ensures r.Some? <==> Comparable(compare, units)
    ensures r.Some? ==> (r.value <==> AnyGroupHolds(compare, units))
    ensures r.Some? ==> (r.value <==> exists i :: 0 <= i < |units| && InBounds(compare, units[i]))
  {
    var oneSatisfied := false;
    var i := 0;
    while i < |units|
      invariant 0 <= i <= |units|
      invariant Comparable(compare, units[..i])
      invariant oneSatisfied <==> AnyGroupHolds(compare, units[..i])
    {
      var allSatisfied := true;
      var j := 0;
      while j < |units[i]|
        invariant 0 <= j <= |units[i]|
        invariant forall k :: 0 <= k < j ==> compare(units[i][k].version).Some?
        invariant allSatisfied <==> GroupHolds(compare, units[i][..j])
      {
        var result := compare(units[i][j].version);
        if result.None? { return None; }
        assert units[i][..j + 1] == units[i][..j] + [units[i][j]];
        if !Holds(units[i][j].op, result.value) { allSatisfied := false; }
        j := j + 1;
      }
      assert units[i][..j] == units[i];
      assert units[..i + 1] == units[..i] + [units[i]];
      AnyGroupSnoc(compare, units[..i], units[i]);
      oneSatisfied := oneSatisfied || allSatisfied;
      i := i + 1;
    }
    assert units[..i] == units;
    AnyGroupMeans(compare, units);
    return Some(oneSatisfied);
  }

  /** What the operators of a group demand of the comparison of the installed version with their versions. */
  ghost predicate InBounds<V>(compare: V -> Option<int>, group: seq<Unit<V>>) {
    forall j :: 0 <= j < |group| ==>
      var r := compare(group[j].version);
      && r.Some?
      && (group[j].op == LT ==> r.value < 0)
      && (group[j].op == LTE ==> r.value <= 0)
      && (group[j].op == EQ ==> r.value == 0)
      && (group[j].op == GTE ==> r.value >= 0)
      && (group[j].op == GT ==> r.value > 0)
  }

  lemma AnyGroupMeans<V>(compare: V -> Option<int>, units: seq<seq<Unit<V>>>)
    ensures AnyGroupHolds(compare, units) <==> exists i :: 0 <= i < |units| && InBounds(compare, units[i])
  {
    forall i | 0 <= i < |units| ensures GroupHolds(compare, units[i]) <==> InBounds(compare, units[i]) {
    }
  }

  /** A range of one unit: what it answers for a version that compares to its bound as k. */
  method SatisfiedByOne<V>(compare: V -> Option<int>, op: Operator, bound: V) returns (r: Option<bool>)
    ensures r.Some? <==> compare(bound).Some?
    ensures r.Some? ==>
              var k := compare(bound).value;
              r.value <==>
              || (op == LT && k < 0) || (op == LTE && k <= 0) || (op == EQ && k == 0)
              || (op == GTE && k >= 0) || (op == GT && k > 0)
  {
    r := Satisfied(compare, [[Unit(op, bound)]]);
    ghost var units: seq<seq<Unit<V>>> := [[Unit(op, bound)]];
    assert units[0][0].version == bound;
    assert r.Some? ==> (r.value <==> InBounds(compare, units[0]));
  }

  lemma AnyGroupSnoc<V>(compare: V -> Option<int>, units: seq<seq<Unit<V>>>, group: seq<Unit<V>>)
    ensures AnyGroupHolds(compare, units + [group]) <==>
            AnyGroupHolds(compare, units) || GroupHolds(compare, group)
  {
    if AnyGroupHolds(compare, units) {
      var i :| 0 <= i < |units| && GroupHolds(compare, units[i]);
      assert (units + [group])[i] == units[i];
    }
    if GroupHolds(compare, group) {
      assert (units + [group])[|units|] == group;
    }
  }

  // ----- convexity

  /** A version satisfies an AND group under a comparator. */
  ghost predicate InGroup<V(!new)>(cmp: (V, V) -> int, group: seq<Unit<V>>, v: V) {
    forall j :: 0 <= j < |group| ==> Holds(group[j].op, cmp(v, group[j].version))
  }

  /** The laws of the operators: complements, unions, and the bound itself. */
  lemma OperatorLaws<V(!new)>(cmp: (V, V) -> int, v: V, c: V)
    requires Reflexive(cmp)
    ensures InGroup(cmp, [Unit(LT, c)], v) <==> !InGroup(cmp, [Unit(GTE, c)], v)
    ensures InGroup(cmp, [Unit(GT, c)], v) <==> !InGroup(cmp, [Unit(LTE, c)], v)
    ensures InGroup(cmp, [Unit(LTE, c)], v) <==> InGroup(cmp, [Unit(LT, c)], v) || InGroup(cmp, [Unit(EQ, c)], v)
    ensures InGroup(cmp, [Unit(GTE, c)], v) <==> InGroup(cmp, [Unit(GT, c)], v) || InGroup(cmp, [Unit(EQ, c)], v)
    ensures InGroup(cmp, [Unit(LT, c)], v) ==> cmp(v, c) < 0
    ensures InGroup(cmp, [Unit(EQ, c)], v) ==> cmp(v, c) == 0
    ensures InGroup(cmp, [Unit(EQ, c)], c) && !InGroup(cmp, [Unit(LT, c)], c) && !InGroup(cmp, [Unit(GT, c)], c)
  {
    assert cmp(c, c) == 0;
    forall op: Operator, w: V ensures InGroup(cmp, [Unit(op, c)], w) <==> Holds(op, cmp(w, c)) {
      assert [Unit(op, c)][0] == Unit(op, c);
    }
  }

  /** Under a total preorder every AND group denotes a convex set of versions. */
  lemma GroupIsConvex<V(!new)>(cmp: (V, V) -> int, group: seq<Unit<V>>, u: V, v: V, w: V)
    requires Preorder(cmp)
    requires cmp(u, v) <= 0 && cmp(v, w) <= 0
    requires InGroup(cmp, group, u) && InGroup(cmp, group, w)
    ensures InGroup(cmp, group, v)
  {
    forall j | 0 <= j < |group| ensures Holds(group[j].op, cmp(v, group[j].version)) {
      HoldsBetween(cmp, group[j].op, u, v, w, group[j].version);
    }
  }

  lemma HoldsBetween<V(!new)>(cmp: (V, V) -> int, op: Operator, u: V, v: V, w: V, c: V)
    requires Preorder(cmp)
    requires cmp(u, v) <= 0 && cmp(v, w) <= 0
    requires Holds(op, cmp(u, c)) && Holds(op, cmp(w, c))
    ensures Holds(op, cmp(v, c))
  {
    Below(cmp, v, w, c);
    Above(cmp, u, v, c);
  }

  /** Going down keeps a version on or below c. */
  lemma Below<V(!new)>(cmp: (V, V) -> int, v: V, w: V, c: V)
    requires Preorder(cmp) && cmp(v, w) <= 0
    ensures cmp(w, c) <= 0 ==> cmp(v, c) <= 0
    ensures cmp(w, c) < 0 ==> cmp(v, c) < 0
  {
    Chain(cmp, v, w, c);
  }

  /** Going up keeps a version on or above c. */
  lemma Above<V(!new)>(cmp: (V, V) -> int, u: V, v: V, c: V)
    requires Preorder(cmp) && cmp(u, v) <= 0
    ensures cmp(u, c) >= 0 ==> cmp(v, c) >= 0
    ensures cmp(u, c) > 0 ==> cmp(v, c) > 0
  {
    Chain(cmp, c, u, v);
    assert cmp(c, u) == -cmp(u, c) && cmp(c, v) == -cmp(v, c);
  }

  /** A group of upper bounds is downward closed. */
  lemma UpperBoundsAreDownwardClosed<V(!new)>(cmp: (V, V) -> int, group: seq<Unit<V>>, v: V, w: V)
    requires Preorder(cmp)
    requires forall j :: 0 <= j < |group| ==> group[j].op == LT || group[j].op == LTE
    requires cmp(v, w) <= 0 && InGroup(cmp, group, w)
    ensures InGroup(cmp, group, v)
  {
    forall j | 0 <= j < |group| ensures Holds(group[j].op, cmp(v, group[j].version)) {
      assert Holds(group[j].op, cmp(w, group[j].version));
      Below(cmp, v, w, group[j].version);
    }
  }
}

/** The convexity of AND groups for the two formats whose comparators are total preorders. */
module ConvexFormats {
  import opened Order
  import opened RangeExpressions
  import Gem
  import Portage

  lemma GemGroupIsConvex(group: seq<Unit<Gem.Version>>, u: Gem.Version, v: Gem.Version, w: Gem.Version)
    requires Gem.VersionOrder()(u, v) <= 0 && Gem.VersionOrder()(v, w) <= 0
    requires InGroup(Gem.VersionOrder(), group, u) && InGroup(Gem.VersionOrder(), group, w)
    ensures InGroup(Gem.VersionOrder(), group, v)
  {
    Gem.VersionOrderIsPreorder();
    GroupIsConvex(Gem.VersionOrder(), group, u, v, w);
  }

  lemma PortageGroupIsConvex(group: seq<Unit<Portage.Version>>,
                             u: Portage.Version, v: Portage.Version, w: Portage.Version)
    requires Portage.KeyOrder()(u, v) <= 0 && Portage.KeyOrder()(v, w) <= 0
    requires InGroup(Portage.KeyOrder(), group, u) && InGroup(Portage.KeyOrder(), group, w)
    ensures InGroup(Portage.KeyOrder(), group, v)
  {
    Portage.KeyOrderIsPreorder();
    GroupIsConvex(Portage.KeyOrder(), group, u, v, w);
  }

  lemma GemUpperBounds(group: seq<Unit<Gem.Version>>, v: Gem.Version, w: Gem.Version)
    requires forall j :: 0 <= j < |group| ==> group[j].op == LT || group[j].op == LTE
    requires Gem.VersionOrder()(v, w) <= 0 && InGroup(Gem.VersionOrder(), group, w)
    ensures InGroup(Gem.VersionOrder(), group, v)
  {
    Gem.VersionOrderIsPreorder();
    UpperBoundsAreDownwardClosed(Gem.VersionOrder(), group, v, w);
  }

  lemma PortageUpperBounds(group: seq<Unit<Portage.Version>>, v: Portage.Version, w: Portage.Version)
    requires forall j :: 0 <= j < |group| ==> group[j].op == LT || group[j].op == LTE
    requires Portage.KeyOrder()(v, w) <= 0 && InGroup(Portage.KeyOrder(), group, w)
    ensures InGroup(Portage.KeyOrder(), group, v)
  {
    Portage.KeyOrderIsPreorder();
    UpperBoundsAreDownwardClosed(Portage.KeyOrder(), group, v, w);
  }
}
