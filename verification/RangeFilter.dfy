/**
 The two ways the v6 database code applies a package's version ranges: one constraint per range
 when it filters handles, and one constraint made by joining all ranges with || when it builds a
 vulnerability. The ranges have one generic format; parsing a unit and comparing the installed
 version with a unit's version are parameters.
 */
module RangeFilter {
  import opened Decimal
  import opened Prelude
  import opened RangeExpressions

  /** A range's constraint text, the tokens it scans into, and the name of its version format. */
  datatype Range = Range(raw: string, tokens: seq<Token>, ty: string)

  type UnitParser = string -> Option<Unit<string>>

  datatype Constraint = Constraint(raw: string, units: seq<seq<Unit<string>>>)

  ghost predicate Parseable(parse: UnitParser, groups: seq<seq<string>>) {
    forall g, t :: g in groups && t in g ==> parse(t).Some?
  }

  /** parseRangeExpression after scanning: None when some unit does not parse. */
  method ParseGroups(parse: UnitParser, groups: seq<seq<string>>)
    returns (r: Option<seq<seq<Unit<string>>>>)
    ensures r.Some? <==> Parseable(parse, groups)
    ensures r.Some? ==> IsUnits(parse, groups, r.value)
  {
    var orUnits: seq<seq<Unit<string>>> := [];
    var i := 0;
    while i < |groups|
      invariant 0 <= i <= |groups|
      invariant IsUnits(parse, groups[..i], orUnits)
    {
      var andUnits: seq<Unit<string>> := [];
      var j := 0;
      while j < |groups[i]|
        invariant 0 <= j <= |groups[i]| && |andUnits| == j
        invariant forall k :: 0 <= k < j ==> parse(groups[i][k]) == Some(andUnits[k])
      {
        var unit := parse(groups[i][j]);
        if unit.None? {
          assert groups[i] in groups && groups[i][j] in groups[i];
          return None;
        }
        andUnits := andUnits + [unit.value];
        j := j + 1;
      }
      orUnits := orUnits + [andUnits];
      i := i + 1;
    }
    assert groups[..i] == groups;
    return Some(orUnits);
  }

  ghost predicate IsUnits(parse: UnitParser, groups: seq<seq<string>>, units: seq<seq<Unit<string>>>) {
    && |units| == |groups|
    && forall i :: 0 <= i < |groups| ==>
         && |units[i]| == |groups[i]|
         && forall j :: 0 <= j < |groups[i]| ==> parse(groups[i][j]) == Some(units[i][j])
  }

  /** newGenericConstraint: None is a parse error. */
  method NewConstraint(parse: UnitParser, r: Range) returns (c: Option<Constraint>)
    ensures c.Some? <==> ParenFree(r.tokens) && Parseable(parse, Groups(r.tokens))
    ensures c.Some? ==> c.value.raw == r.raw && IsUnits(parse, Groups(r.tokens), c.value.units)
  {
    var groups := ScanExpression(r.tokens);
    if groups.None? { return None; }
    var units := ParseGroups(parse, groups.value);
    if units.None? { return None; }
    return Some(Constraint(r.raw, units.value));
  }

  // ----- what a range means

  ghost predicate WellFormed(parse: UnitParser, r: Range) {
    ParenFree(r.tokens) && Parseable(parse, Groups(r.tokens))
  }

  ghost predicate TextHolds(parse: UnitParser, compare: string -> Option<int>, t: string) {
    && parse(t).Some?
    && compare(parse(t).value.version).Some?
    && Holds(parse(t).value.op, compare(parse(t).value.version).value)
  }

  ghost predicate TextsHold(parse: UnitParser, compare: string -> Option<int>, g: seq<string>) {
    forall t :: t in g ==> TextHolds(parse, compare, t)
  }

  ghost predicate ErrorFree(parse: UnitParser, compare: string -> Option<int>, groups: seq<seq<string>>) {
    forall g, t :: g in groups && t in g ==> parse(t).Some? && compare(parse(t).value.version).Some?
  }

  /** The installed version lies in some group. */
  ghost predicate Satisfiable(parse: UnitParser, compare: string -> Option<int>, groups: seq<seq<string>>) {
    exists g :: g in groups && TextsHold(parse, compare, g)
  }

  /** The constraint of r evaluates to true without an error; the empty text is always satisfied. */
  ghost predicate Matches(parse: UnitParser, compare: string -> Option<int>, r: Range) {
    r.raw == "" || (ErrorFree(parse, compare, Groups(r.tokens)) && Satisfiable(parse, compare, Groups(r.tokens)))
  }

  lemma UnitsMean(parse: UnitParser, compare: string -> Option<int>,
                  groups: seq<seq<string>>, units: seq<seq<Unit<string>>>)
    requires IsUnits(parse, groups, units)
    ensures Comparable(compare, units) <==> ErrorFree(parse, compare, groups)
    ensures AnyGroupHolds(compare, units) <==> Satisfiable(parse, compare, groups)
  {
    if Comparable(compare, units) {
      forall g, t | g in groups && t in g
        ensures parse(t).Some? && compare(parse(t).value.version).Some?
      {
        var i :| 0 <= i < |groups| && groups[i] == g;
        var j :| 0 <= j < |g| && g[j] == t;
        assert parse(groups[i][j]) == Some(units[i][j]);
      }
    }
    if ErrorFree(parse, compare, groups) {
      forall i, j | 0 <= i < |units| && 0 <= j < |units[i]|
        ensures compare(units[i][j].version).Some?
      {
        assert groups[i] in groups && groups[i][j] in groups[i];
      }
    }
    forall i | 0 <= i < |groups|
      ensures GroupHolds(compare, units[i]) <==> TextsHold(parse, compare, groups[i])
    {
      UnitGroupMeans(parse, compare, groups[i], units[i]);
    }
    if AnyGroupHolds(compare, units) {
      var i :| 0 <= i < |units| && GroupHolds(compare, units[i]);
      assert groups[i] in groups;
    }
    if Satisfiable(parse, compare, groups) {
      var g :| g in groups && TextsHold(parse, compare, g);
      var i :| 0 <= i < |groups| && groups[i] == g;
      assert GroupHolds(compare, units[i]);
    }
  }

  lemma UnitGroupMeans(parse: UnitParser, compare: string -> Option<int>,
                       g: seq<string>, units: seq<Unit<string>>)
    requires |units| == |g| && forall j :: 0 <= j < |g| ==> parse(g[j]) == Some(units[j])
    ensures GroupHolds(compare, units) <==> TextsHold(parse, compare, g)
  {
    if GroupHolds(compare, units) {
      forall t | t in g ensures TextHolds(parse, compare, t) {
        var j :| 0 <= j < |g| && g[j] == t;
        assert compare(units[j].version).Some?;
      }
    }
    if TextsHold(parse, compare, g) {
      forall j | 0 <= j < |units|
        ensures compare(units[j].version).Some? && Holds(units[j].op, compare(units[j].version).value)
      {
        assert TextHolds(parse, compare, g[j]);
      }
    }
  }

  /** genericConstraint.Satisfied for an installed version that is given. */
  method Evaluate(compare: string -> Option<int>, c: Constraint) returns (r: Option<bool>)
    ensures c.raw == "" ==> r == Some(true)
    ensures c.raw != "" ==> (r.Some? <==> Comparable(compare, c.units))
    ensures c.raw != "" && r.Some? ==> (r.value <==> AnyGroupHolds(compare, c.units))
  {
    if c.raw == "" { return Some(true); }
    r := Satisfied(compare, c.units);
  }

  // ----- one constraint per range

  ghost predicate Dropped(parse: UnitParser, compare: string -> Option<int>, r: Range) {
    WellFormed(parse, r) && !Matches(parse, compare, r)
  }

  ghost function IsDropped(parse: UnitParser, compare: string -> Option<int>): (p: Range -> bool) {
    r => Dropped(parse, compare, r)
  }

  /** The texts of the selected ranges, in order. */
  function SelectedTexts(p: Range -> bool, ranges: seq<Range>): (texts: seq<string>) {
    if ranges == [] then []
    else
      var last := ranges[|ranges| - 1];
      SelectedTexts(p, ranges[..|ranges| - 1]) + (if p(last) then [last.raw] else [])
  }

  ghost function DroppedTexts(parse: UnitParser, compare: string -> Option<int>, ranges: seq<Range>): (texts: seq<string>) {
    SelectedTexts(IsDropped(parse, compare), ranges)
  }

  lemma {:induction false} SelectedCount(p: Range -> bool, ranges: seq<Range>)
    ensures |SelectedTexts(p, ranges)| <= |ranges|
    ensures |SelectedTexts(p, ranges)| == |ranges| <==> forall i :: 0 <= i < |ranges| ==> p(ranges[i])
  {
    if ranges != [] {
      var front, last := ranges[..|ranges| - 1], ranges[|ranges| - 1];
      SelectedCount(p, front);
      AllSnoc(p, front, last);
      assert ranges == front + [last];
    }
  }

  lemma DroppedCount(parse: UnitParser, compare: string -> Option<int>, ranges: seq<Range>)
    ensures |DroppedTexts(parse, compare, ranges)| == |ranges|
            <==> forall i :: 0 <= i < |ranges| ==> Dropped(parse, compare, ranges[i])
  {
    SelectedCount(IsDropped(parse, compare), ranges);
    assert forall i :: 0 <= i < |ranges| ==>
                         (IsDropped(parse, compare)(ranges[i]) <==> Dropped(parse, compare, ranges[i]));
  }

  lemma {:induction false} SelectedInOrder(p: Range -> bool, a: seq<Range>, b: seq<Range>)
    ensures SelectedTexts(p, a + b) == SelectedTexts(p, a) + SelectedTexts(p, b)
    decreases |b|
  {
    if b == [] {
      assert a + b == a;
    } else {
      SelectedInOrder(p, a, b[..|b| - 1]);
      FrontOfConcat(a, b);
    }
  }

  /** The unmatched texts are those of the dropped ranges, in the order of the ranges. */
  lemma DroppedTextsInOrder(parse: UnitParser, compare: string -> Option<int>, a: seq<Range>, b: seq<Range>)
    ensures DroppedTexts(parse, compare, a + b) == DroppedTexts(parse, compare, a) + DroppedTexts(parse, compare, b)
    ensures forall r :: DroppedTexts(parse, compare, [r]) == if Dropped(parse, compare, r) then [r.raw] else []
  {
    SelectedInOrder(IsDropped(parse, compare), a, b);
    forall r: Range
      ensures DroppedTexts(parse, compare, [r]) == if Dropped(parse, compare, r) then [r.raw] else []
    {
      assert SelectedTexts(IsDropped(parse, compare), [r][..0]) == [];
    }
  }

  lemma AllSnoc(p: Range -> bool, front: seq<Range>, last: Range)
    ensures (forall i :: 0 <= i < |front + [last]| ==> p((front + [last])[i])) <==>
            p(last) && forall i :: 0 <= i < |front| ==> p(front[i])
  {
    if forall i :: 0 <= i < |front + [last]| ==> p((front + [last])[i]) {
      assert (front + [last])[|front|] == last;
      assert forall i :: 0 <= i < |front| ==> (front + [last])[i] == front[i];
    }
  }

  /** filterAffectedPackageRanges: true when every range is dropped. */
  method FilterAffectedPackageRanges(parse: UnitParser, compare: string -> Option<int>, ranges: seq<Range>)
    returns (allDropped: bool, unmatched: seq<string>)
    ensures allDropped <==> ranges != [] && forall i :: 0 <= i < |ranges| ==> Dropped(parse, compare, ranges[i])
    ensures unmatched == DroppedTexts(parse, compare, ranges)
  {
    if |ranges| == 0 { return false, []; }
    unmatched := [];
    var i := 0;
    while i < |ranges|
      invariant 0 <= i <= |ranges|
      invariant unmatched == DroppedTexts(parse, compare, ranges[..i])
    {
      var r := ranges[i];
      assert ranges[..i + 1][..i] == ranges[..i];
      var constraint := NewConstraint(parse, r);
      if constraint.Some? {
        var matches := Evaluate(compare, constraint.value);
        UnitsMean(parse, compare, Groups(r.tokens), constraint.value.units);
        if matches != Some(true) {
          unmatched := unmatched + [r.raw];
        }
      }
      i := i + 1;
    }
    assert ranges[..i] == ranges;
    DroppedCount(parse, compare, ranges);
    allDropped := |ranges| == |unmatched|;
  }

  // ----- one constraint for all ranges

  function NonEmpty(ranges: seq<Range>): (r: seq<Range>)
    ensures forall x :: x in r <==> x in ranges && x.raw != ""
  {
    if ranges == [] then []
    else
      var rest := NonEmpty(ranges[..|ranges| - 1]);
      var last := ranges[|ranges| - 1];
      assert ranges == ranges[..|ranges| - 1] + [last];
      if last.raw != "" then rest + [last] else rest
  }

  function JoinTexts(ranges: seq<Range>): (s: string) {
    if ranges == [] then "" else if |ranges| == 1 then ranges[0].raw else ranges[0].raw + "||" + JoinTexts(ranges[1..])
  }

  /** The joined text has exactly one double bar between any two parts. */
  lemma {:induction false} JoinTextsConcat(a: seq<Range>, b: seq<Range>)
    requires a != [] && b != []
    ensures JoinTexts(a + b) == JoinTexts(a) + "||" + JoinTexts(b)
  {
    assert (a + b)[1..] == a[1..] + b;
    if |a| == 1 {
      assert a[1..] + b == b;
    } else {
      JoinTextsConcat(a[1..], b);
      assert a[0].raw + "||" + (JoinTexts(a[1..]) + "||" + JoinTexts(b)) ==
             a[0].raw + "||" + JoinTexts(a[1..]) + "||" + JoinTexts(b);
    }
  }

  function TokenLists(ranges: seq<Range>): (t: seq<seq<Token>>)
    ensures |t| == |ranges| && forall i :: 0 <= i < |ranges| ==> t[i] == ranges[i].tokens
  {
    seq(|ranges|, i requires 0 <= i < |ranges| => ranges[i].tokens)
  }

  /** The joined constraint text, scanned as the tokens of its parts with || between them. */
  function Joined(ranges: seq<Range>): (r: Range) {
    Range(JoinTexts(NonEmpty(ranges)), OrJoinAll(TokenLists(NonEmpty(ranges))), "")
  }

  /** The formats named by the ranges that have a text. */
  function NamedTypes(ranges: seq<Range>): (types: set<string>) {
    set r | r in ranges && r.raw != "" && r.ty != "" :: r.ty
  }

  lemma NamedTypesNext(ranges: seq<Range>, i: nat)
    requires i < |ranges|
    ensures NamedTypes(ranges[..i + 1]) == NamedTypes(ranges[..i]) +
            if ranges[i].raw != "" && ranges[i].ty != "" then {ranges[i].ty} else {}
  {
    assert ranges[..i + 1] == ranges[..i] + [ranges[i]];
  }

  /** The first of the types in sorted order. */
  method LeastType(types: set<string>) returns (ty: string)
    requires types != {}
    ensures ty in types && forall t :: t in types ==> CompareText(ty, t) <= 0
  {
    ty :| ty in types;
    var rest := types - {ty};
    CompareTextIsPreorder();
    while rest != {}
      invariant rest <= types && ty in types
      invariant forall t :: t in types - rest ==> CompareText(ty, t) <= 0
      decreases rest
    {
      var t :| t in rest;
      if CompareText(t, ty) < 0 {
        CompareTextAntisymmetric(t, ty);
        forall u | u in types - rest ensures CompareText(t, u) <= 0 {
          CompareTextTransitive(t, ty, u);
        }
        ty := t;
      } else {
        CompareTextAntisymmetric(t, ty);
      }
      rest := rest - {t};
    }
  }

  ghost predicate IsLeastType(types: set<string>, ty: string) {
    if types == {} then ty == "" else ty in types && forall t :: t in types ==> CompareText(ty, t) <= 0
  }

  lemma LeastTypeMeans(ranges: seq<Range>, ty: string)
    requires IsLeastType(NamedTypes(ranges), ty)
    ensures forall r :: r in ranges && r.raw != "" && r.ty != "" ==> ty != "" && CompareText(ty, r.ty) <= 0
    ensures ty != "" ==> exists r :: r in ranges && r.raw != "" && r.ty == ty
  {
    forall r | r in ranges && r.raw != "" && r.ty != "" ensures ty != "" && CompareText(ty, r.ty) <= 0 {
      assert r.ty in NamedTypes(ranges);
      assert ty in NamedTypes(ranges);
    }
  }

  /** getVersionConstraint: the constraint, and the name of the format it is parsed with. */
  method GetVersionConstraint(parse: UnitParser, ranges: seq<Range>) returns (c: Option<Constraint>, ty: string)
    ensures c.Some? <==> WellFormed(parse, Joined(ranges))
    ensures c.Some? ==> c.value.raw == Joined(ranges).raw
                        && IsUnits(parse, Groups(Joined(ranges).tokens), c.value.units)
    ensures forall r :: r in ranges && r.raw != "" && r.ty != "" ==> ty != "" && CompareText(ty, r.ty) <= 0
    ensures ty != "" ==> exists r :: r in ranges && r.raw != "" && r.ty == ty
  {
    var constraints: seq<Range> := [];
    var types: set<string> := {};
    var i := 0;
    while i < |ranges|
      invariant 0 <= i <= |ranges|
      invariant constraints == NonEmpty(ranges[..i]) && types == NamedTypes(ranges[..i])
    {
      assert ranges[..i + 1][..i] == ranges[..i];
      NamedTypesNext(ranges, i);
      if ranges[i].raw != "" {
        if ranges[i].ty != "" { types := types + {ranges[i].ty}; }
        constraints := constraints + [ranges[i]];
      }
      i := i + 1;
    }
    assert ranges[..i] == ranges;
    ty := "";
    if types != {} { ty := LeastType(types); }
    LeastTypeMeans(ranges, ty);
    c := NewConstraint(parse, Range(JoinTexts(constraints), OrJoinAll(TokenLists(constraints)), ty));
  }

  lemma {:induction false} GroupsOfAllMember(parts: seq<seq<Token>>, g: seq<string>)
    ensures g in GroupsOfAll(parts) <==> exists i :: 0 <= i < |parts| && g in Groups(parts[i])
  {
    if parts != [] {
      GroupsOfAllMember(parts[1..], g);
      if g in GroupsOfAll(parts[1..]) {
        var i :| 0 <= i < |parts[1..]| && g in Groups(parts[1..][i]);
        assert g in Groups(parts[i + 1]);
      }
      if i :| 0 <= i < |parts| && g in Groups(parts[i]) {
        if i > 0 { assert g in Groups(parts[1..][i - 1]); }
      }
    }
  }

  lemma JoinedGroups(ranges: seq<Range>, g: seq<string>)
    ensures g in Groups(Joined(ranges).tokens) <==>
            exists r :: r in ranges && r.raw != "" && g in Groups(r.tokens)
  {
    var rs := NonEmpty(ranges);
    var parts := TokenLists(rs);
    ScanOrAll(parts);
    GroupsOfAllMember(parts, g);
    if i :| 0 <= i < |parts| && g in Groups(parts[i]) {
      assert rs[i] in rs;
    }
    if r :| r in ranges && r.raw != "" && g in Groups(r.tokens) {
      assert r in rs;
      var i :| 0 <= i < |rs| && rs[i] == r;
      assert g in Groups(parts[i]);
    }
  }

  lemma {:induction false} OrJoinParenFree(parts: seq<seq<Token>>)
    requires forall i :: 0 <= i < |parts| ==> ParenFree(parts[i])
    ensures ParenFree(OrJoinAll(parts))
  {
    if |parts| > 1 {
      OrJoinParenFree(parts[1..]);
    }
  }

  lemma {:induction false} JoinTextsEmpty(ranges: seq<Range>)
    requires forall r :: r in ranges ==> r.raw != ""
    ensures JoinTexts(ranges) == "" <==> ranges == []
  {
    if |ranges| == 1 { assert ranges[0] in ranges; }
  }

  ghost predicate AllWellFormed(parse: UnitParser, ranges: seq<Range>) {
    forall r :: r in ranges ==> WellFormed(parse, r)
  }

  ghost predicate Fails(parse: UnitParser, compare: string -> Option<int>, r: Range) {
    r.raw != "" && !ErrorFree(parse, compare, Groups(r.tokens))
  }

  lemma JoinedIsWellFormed(parse: UnitParser, ranges: seq<Range>)
    requires AllWellFormed(parse, ranges)
    ensures WellFormed(parse, Joined(ranges))
  {
    var rs := NonEmpty(ranges);
    forall i | 0 <= i < |rs| ensures ParenFree(TokenLists(rs)[i]) {
      assert rs[i] in rs;
    }
    OrJoinParenFree(TokenLists(rs));
    forall g, t | g in Groups(Joined(ranges).tokens) && t in g ensures parse(t).Some? {
      JoinedGroups(ranges, g);
    }
  }

  /**
   When the joined constraint matches: there is nothing to join, or no comparison fails and some
   range with a text matches.
   */
  lemma JoinedMatches(parse: UnitParser, compare: string -> Option<int>, ranges: seq<Range>)
    ensures Matches(parse, compare, Joined(ranges)) <==>
            || (forall r :: r in ranges ==> r.raw == "")
            || ((forall r :: r in ranges ==> !Fails(parse, compare, r))
                && exists r :: r in ranges && r.raw != "" && Matches(parse, compare, r))
  {
    var j := Joined(ranges);
    JoinTextsEmpty(NonEmpty(ranges));
    assert j.raw == "" <==> forall r :: r in ranges ==> r.raw == "" by {
      if NonEmpty(ranges) != [] { assert NonEmpty(ranges)[0] in NonEmpty(ranges); }
    }
    JoinedErrors(parse, compare, ranges);
    if Matches(parse, compare, j) && j.raw != "" {
      var g :| g in Groups(j.tokens) && TextsHold(parse, compare, g);
      JoinedGroups(ranges, g);
      var r :| r in ranges && r.raw != "" && g in Groups(r.tokens);
      assert !Fails(parse, compare, r);
      assert Matches(parse, compare, r);
    }
    if r :| r in ranges && r.raw != "" && Matches(parse, compare, r) {
      var g :| g in Groups(r.tokens) && TextsHold(parse, compare, g);
      JoinedGroups(ranges, g);
    }
  }

  lemma JoinedErrors(parse: UnitParser, compare: string -> Option<int>, ranges: seq<Range>)
    ensures ErrorFree(parse, compare, Groups(Joined(ranges).tokens)) <==>
            forall r :: r in ranges ==> !Fails(parse, compare, r)
  {
    var groups := Groups(Joined(ranges).tokens);
    if ErrorFree(parse, compare, groups) {
      forall r | r in ranges && r.raw != "" ensures ErrorFree(parse, compare, Groups(r.tokens)) {
        forall g, t | g in Groups(r.tokens) && t in g
          ensures parse(t).Some? && compare(parse(t).value.version).Some?
        {
          JoinedGroups(ranges, g);
        }
      }
    } else {
      var g, t :| g in groups && t in g && !(parse(t).Some? && compare(parse(t).value.version).Some?);
      JoinedGroups(ranges, g);
      var r :| r in ranges && r.raw != "" && g in Groups(r.tokens);
      assert Fails(parse, compare, r);
    }
  }

  /** Per-range filtering keeps the package. */
  ghost predicate Kept(parse: UnitParser, compare: string -> Option<int>, ranges: seq<Range>) {
    ranges == [] || exists r :: r in ranges && !Dropped(parse, compare, r)
  }

  lemma KeptIsNotAllDropped(parse: UnitParser, compare: string -> Option<int>, ranges: seq<Range>)
    ensures Kept(parse, compare, ranges) <==>
            !(ranges != [] && forall i :: 0 <= i < |ranges| ==> Dropped(parse, compare, ranges[i]))
  {
    if r :| r in ranges && !Dropped(parse, compare, r) {
      var i :| 0 <= i < |ranges| && ranges[i] == r;
    }
    if i :| 0 <= i < |ranges| && !Dropped(parse, compare, ranges[i]) {
      assert ranges[i] in ranges;
    }
  }

  /** Only empty texts match: some text is empty, some is not, and no range with a text matches. */
  ghost predicate OnlyEmptyTextsMatch(parse: UnitParser, compare: string -> Option<int>, ranges: seq<Range>) {
    && (exists r :: r in ranges && r.raw == "")
    && (exists r :: r in ranges && r.raw != "")
    && (forall r :: r in ranges && r.raw != "" ==> !Matches(parse, compare, r))
  }

  /** A comparison that fails in one range spoils the match of another one. */
  ghost predicate FailureSpoilsMatch(parse: UnitParser, compare: string -> Option<int>, ranges: seq<Range>) {
    (exists r :: r in ranges && Fails(parse, compare, r)) && (exists r :: r in ranges && Matches(parse, compare, r))
  }

  /**
   Filtering range by range keeps whatever the joined constraint matches. The two disagree exactly
   when only empty texts match or a failing comparison spoils a match.
   */
  lemma FilterDisagreesExactly(parse: UnitParser, compare: string -> Option<int>, ranges: seq<Range>)
    requires AllWellFormed(parse, ranges)
    ensures Matches(parse, compare, Joined(ranges)) ==> Kept(parse, compare, ranges)
    ensures (Kept(parse, compare, ranges) <==> Matches(parse, compare, Joined(ranges))) <==>
            !OnlyEmptyTextsMatch(parse, compare, ranges) && !FailureSpoilsMatch(parse, compare, ranges)
  {
    JoinedMatches(parse, compare, ranges);
    if ranges != [] { assert ranges[0] in ranges; }
  }

  ghost predicate NoneFails(parse: UnitParser, compare: string -> Option<int>, ranges: seq<Range>) {
    forall r :: r in ranges ==> !Fails(parse, compare, r)
  }

  /** The promised agreement: non-empty texts and error-free comparison. */
  lemma FilterAgreesWithJoin(parse: UnitParser, compare: string -> Option<int>, ranges: seq<Range>)
    requires AllWellFormed(parse, ranges)
    requires forall r :: r in ranges ==> r.raw != "" && ErrorFree(parse, compare, Groups(r.tokens))
    ensures Kept(parse, compare, ranges) <==> Matches(parse, compare, Joined(ranges))
  {
    FilterDisagreesExactly(parse, compare, ranges);
  }

  /**
   The two answers the provider computes for one package: whether the filter keeps it, and what the
   vulnerability's constraint says. The constraint has an answer exactly when no comparison fails,
   and then the two disagree exactly when only empty texts match.
   */
  method FilterThenEvaluate(parse: UnitParser, compare: string -> Option<int>, ranges: seq<Range>)
    returns (kept: bool, verdict: Option<bool>)
    requires AllWellFormed(parse, ranges)
    ensures kept <==> Kept(parse, compare, ranges)
    ensures verdict.Some? <==> NoneFails(parse, compare, ranges)
    ensures verdict.Some? ==> (kept == verdict.value <==> !OnlyEmptyTextsMatch(parse, compare, ranges))
  {
    var allDropped, _ := FilterAffectedPackageRanges(parse, compare, ranges);
    kept := !allDropped;
    KeptIsNotAllDropped(parse, compare, ranges);
    JoinedIsWellFormed(parse, ranges);
    var c, _ := GetVersionConstraint(parse, ranges);
    verdict := Evaluate(compare, c.value);
    UnitsMean(parse, compare, Groups(Joined(ranges).tokens), c.value.units);
    JoinedErrors(parse, compare, ranges);
    EmptyJoinHasNoFailure(parse, compare, ranges);
    FilterDisagreesExactly(parse, compare, ranges);
    assert verdict == Some(true) <==> Matches(parse, compare, Joined(ranges));
  }

  lemma EmptyJoinHasNoFailure(parse: UnitParser, compare: string -> Option<int>, ranges: seq<Range>)
    ensures Joined(ranges).raw == "" ==> NoneFails(parse, compare, ranges)
  {
    JoinTextsEmpty(NonEmpty(ranges));
  }

  lemma EmptyRangeHides(parse: UnitParser, compare: string -> Option<int>, empty: Range, text: Range)
    requires empty.raw == "" && empty.tokens == [] && WellFormed(parse, text)
    requires text.raw != "" && !Fails(parse, compare, text) && !Matches(parse, compare, text)
    ensures var ranges := [empty, text];
            && AllWellFormed(parse, ranges) && NoneFails(parse, compare, ranges)
            && Kept(parse, compare, ranges) && !Matches(parse, compare, Joined(ranges))
  {
    var ranges := [empty, text];
    assert Groups([]) == [];
    assert ranges[0] == empty && ranges[1] == text;
    FilterDisagreesExactly(parse, compare, ranges);
  }

  lemma GroupsOfTwo(a: Token, b: Token)
    requires a != COMMA && a != BAR && a != "" && b != COMMA && b != BAR
    ensures Groups([a, b]) == [[a + b]]
  {
    var one, two := Step(START, a), Step(Step(START, a), b);
    assert "" + a == a;
    assert [a, b][1..] == [b] && [b][1..] == [];
    assert Steps(one, [b]) == Steps(two, []) == two;
    assert two == Scan(a + b, [], [], b);
    assert CaptureText(two).andGroup == [a + b];
  }

  /** A version above 1 against the ranges "" and "<1": the filter keeps it, the joined "<1" does not match. */
  lemma EmptyRangeWitness(parse: UnitParser, compare: string -> Option<int>) returns (empty: Range, text: Range)
    requires parse(['<', '1']) == Some(Unit(LT, ['1'])) && compare(['1']) == Some(1)
    ensures empty.raw == "" && text.raw == ['<', '1'] && text.tokens == [['<'], ['1']]
    ensures Kept(parse, compare, [empty, text]) && !Matches(parse, compare, Joined([empty, text]))
  {
    empty, text := Range("", [], ""), Range(['<', '1'], [['<'], ['1']], "");
    assert ['<'][0] == '<' && ['1'][0] == '1' && ['<'] + ['1'] == ['<', '1'];
    OneUnitRange(parse, compare, ['<'], ['1'], text);
    EmptyRangeHides(parse, compare, empty, text);
  }

  /** A range of one unit that parses, compares and does not hold. */
  lemma OneUnitRange(parse: UnitParser, compare: string -> Option<int>, a: Token, b: Token, text: Range)
    requires a != COMMA && a != BAR && a != "" && b != COMMA && b != BAR && !IsParen(a) && !IsParen(b)
    requires text.raw == a + b && text.tokens == [a, b]
    requires parse(a + b).Some? && compare(parse(a + b).value.version).Some?
    requires !Holds(parse(a + b).value.op, compare(parse(a + b).value.version).value)
    ensures WellFormed(parse, text) && !Fails(parse, compare, text) && !Matches(parse, compare, text)
  {
    GroupsOfTwo(a, b);
    var g := [a + b];
    assert Groups(text.tokens) == [g];
    forall h, t | h in Groups(text.tokens) && t in h ensures h == g && t == a + b {
      assert h in [g];
    }
    assert g[0] in g && g in [g];
    assert !TextHolds(parse, compare, g[0]);
    assert text.raw[0] == a[0];
  }
}
