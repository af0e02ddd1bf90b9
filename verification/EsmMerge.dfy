/**
 The Ubuntu ESM merge: a disclosure is fused with the advisories that overlay it. It is dropped when
 nothing says that the installed version is vulnerable; otherwise it is kept with the fixes that the
 installed version still needs and with the OR of the constraints that apply. The installed version
 is given by its comparison with a version text, None being a comparison error.
 */
module EsmMerge {
  import opened Prelude
  import opened RangeExpressions
  import opened RangeFilter

  type Installed = string -> Option<int>

  /** NoState is the empty string. */
  datatype FixState = NoState | Unknown | Fixed | WontFix | NotFixed

  datatype Fix = Fix(state: FixState, versions: seq<string>)

  /** A disclosure or an advisory; a disclosure may have no constraint at all. */
  datatype Disclosure = Disclosure(id: string, constraint: Option<Constraint>, fix: Fix)
  datatype Advisory = Advisory(id: string, constraint: Constraint, fix: Fix)

  /** One advisory overlay, with its match details. */
  datatype Overlay = Overlay(advisories: seq<Advisory>, details: seq<string>)

  // ----- fixes from the database

  datatype RangeFix = FixedIn(version: string) | WontBeFixed | NotYetFixed | NotAffected

  function FixedVersions(fixes: seq<Option<RangeFix>>): (versions: seq<string>) {
    if fixes == [] then []
    else
      var last, rest := fixes[|fixes| - 1], FixedVersions(fixes[..|fixes| - 1]);
      if last.Some? && last.value.FixedIn? then rest + [last.value.version] else rest
  }

  /** What toFix guarantees: versions come with the state Fixed only. */
  predicate Shaped(fix: Fix) {
    fix.versions != [] ==> fix.state == Fixed
  }

  predicate SomeFixed(fixes: seq<Option<RangeFix>>) {
    exists i :: 0 <= i < |fixes| && fixes[i].Some? && fixes[i].value.FixedIn?
  }

  /** The last range that says won't-fix or not-fixed. */
  function LastVerdict(fixes: seq<Option<RangeFix>>): (state: FixState) {
    if fixes == [] then NoState
    else
      match fixes[|fixes| - 1]
      case Some(WontBeFixed) => WontFix
      case Some(NotYetFixed) => NotFixed
      case _ => LastVerdict(fixes[..|fixes| - 1])
  }

  lemma SomeFixedNext(fixes: seq<Option<RangeFix>>, i: nat)
    requires i < |fixes|
    ensures fixes[..i + 1][..i] == fixes[..i]
    ensures SomeFixed(fixes[..i + 1]) <==> SomeFixed(fixes[..i]) || (fixes[i].Some? && fixes[i].value.FixedIn?)
    ensures LastVerdict(fixes[..i]) != Fixed
  {
    assert fixes[..i + 1] == fixes[..i] + [fixes[i]];
    LastVerdictIsNotFixed(fixes[..i]);
  }

  lemma {:induction false} LastVerdictIsNotFixed(fixes: seq<Option<RangeFix>>)
    ensures LastVerdict(fixes) != Fixed
  {
    if fixes != [] { LastVerdictIsNotFixed(fixes[..|fixes| - 1]); }
  }

  /** The versions are those of the fixed ranges, in the order of the ranges. */
  lemma {:induction false} FixedVersionsInOrder(a: seq<Option<RangeFix>>, b: seq<Option<RangeFix>>)
    ensures FixedVersions(a + b) == FixedVersions(a) + FixedVersions(b)
    decreases |b|
  {
    if b == [] {
      assert a + b == a;
    } else {
      FixedVersionsInOrder(a, b[..|b| - 1]);
      FrontOfConcat(a, b);
    }
  }

  lemma {:induction false} FixedVersionsExactly(fixes: seq<Option<RangeFix>>, version: string)
    ensures version in FixedVersions(fixes) <==> Some(FixedIn(version)) in fixes
    ensures |FixedVersions(fixes)| <= |fixes|
  {
    if fixes != [] {
      FixedVersionsExactly(fixes[..|fixes| - 1], version);
      assert fixes == fixes[..|fixes| - 1] + [fixes[|fixes| - 1]];
    }
  }

  /** No range from k on says won't-fix or not-fixed. */
  predicate SilentFrom(fixes: seq<Option<RangeFix>>, k: nat) {
    forall j :: k <= j < |fixes| ==> fixes[j] != Some(WontBeFixed) && fixes[j] != Some(NotYetFixed)
  }

  /** The last verdict is that of the last range that gives one. */
  lemma {:induction false} LastVerdictExactly(fixes: seq<Option<RangeFix>>, k: nat)
    requires k <= |fixes| && SilentFrom(fixes, k)
    ensures k > 0 && fixes[k - 1] == Some(WontBeFixed) ==> LastVerdict(fixes) == WontFix
    ensures k > 0 && fixes[k - 1] == Some(NotYetFixed) ==> LastVerdict(fixes) == NotFixed
    ensures k == 0 ==> LastVerdict(fixes) == NoState
    decreases |fixes|
  {
    if |fixes| > k {
      var last := fixes[|fixes| - 1];
      assert last != Some(WontBeFixed) && last != Some(NotYetFixed);
      LastVerdictExactly(fixes[..|fixes| - 1], k);
    }
  }

  /** toFix: a single fixed range makes the whole fix Fixed, otherwise the last verdict counts. */
  method ToFix(fixes: seq<Option<RangeFix>>) returns (fix: Fix)
    ensures fix.versions == FixedVersions(fixes)
    ensures fix.state == if SomeFixed(fixes) then Fixed else LastVerdict(fixes)
    ensures Shaped(fix)
  {
    var state, versions := NoState, [];
    var i := 0;
    while i < |fixes|
      invariant 0 <= i <= |fixes| && versions == FixedVersions(fixes[..i])
      invariant state == if SomeFixed(fixes[..i]) then Fixed else LastVerdict(fixes[..i])
      invariant versions != [] ==> SomeFixed(fixes[..i])
    {
      SomeFixedNext(fixes, i);
      if fixes[i].Some? {
        match fixes[i].value
        case FixedIn(version) => state, versions := Fixed, versions + [version];
        case NotAffected =>
        case WontBeFixed => if state != Fixed { state := WontFix; }
        case NotYetFixed => if state != Fixed { state := NotFixed; }
      }
      i := i + 1;
    }
    assert fixes[..i] == fixes;
    if |versions| == 0 && state == NoState { return Fix(NoState, []); }
    return Fix(state, versions);
  }

  // ----- constraints

  /** The result of CombineConstraints: nil, one constraint, or an OR of several. */
  datatype Combined = Nil | One(c: Constraint) | AnyOf(operands: seq<Constraint>)

  function Operands(c: Combined): (cs: seq<Constraint>) {
    match c case Nil => [] case One(c) => [c] case AnyOf(operands) => operands
  }

  /** The constraint is evaluated without an error. */
  ghost predicate Decidable(v: Installed, c: Constraint) {
    c.raw == "" || Comparable(v, c.units)
  }

  ghost predicate Covers(v: Installed, c: Constraint) {
    c.raw == "" || AnyGroupHolds(v, c.units)
  }

  /** Evaluating constraints in order: the first error or the first constraint that covers decides. */
  ghost function Verdict(v: Installed, cs: seq<Constraint>): (r: Option<bool>) {
    if cs == [] then Some(false)
    else if !Decidable(v, cs[0]) then None
    else if Covers(v, cs[0]) then Some(true)
    else Verdict(v, cs[1..])
  }

  ghost predicate Accepts(v: Installed, c: Constraint) {
    Decidable(v, c) && Covers(v, c)
  }

  ghost predicate SomeAccepts(v: Installed, cs: seq<Constraint>) {
    exists c :: c in cs && Accepts(v, c)
  }

  /** A constraint that cannot be evaluated comes before every one that accepts. */
  ghost predicate Blocked(v: Installed, cs: seq<Constraint>) {
    exists i :: 0 <= i < |cs| && !Decidable(v, cs[i]) && forall j :: 0 <= j < i ==> !Accepts(v, cs[j])
  }

  /** What evaluating in order answers, without the recursion. */
  lemma {:induction false} VerdictMeans(v: Installed, cs: seq<Constraint>)
    ensures Verdict(v, cs).None? <==> Blocked(v, cs)
    ensures Verdict(v, cs) == Some(true) <==> !Blocked(v, cs) && SomeAccepts(v, cs)
    ensures Verdict(v, cs) == Some(false) <==> !Blocked(v, cs) && !SomeAccepts(v, cs)
  {
    if cs != [] {
      VerdictMeans(v, cs[1..]);
      BlockedStep(v, cs);
      SomeAcceptsStep(v, cs);
    }
  }

  lemma SomeAcceptsStep(v: Installed, cs: seq<Constraint>)
    requires cs != []
    ensures SomeAccepts(v, cs) <==> Accepts(v, cs[0]) || SomeAccepts(v, cs[1..])
  {
    assert cs == [cs[0]] + cs[1..];
  }

  lemma BlockedStep(v: Installed, cs: seq<Constraint>)
    requires cs != []
    ensures Blocked(v, cs) <==> !Decidable(v, cs[0]) || (!Accepts(v, cs[0]) && Blocked(v, cs[1..]))
  {
    if i :| 0 <= i < |cs| && !Decidable(v, cs[i]) && forall j :: 0 <= j < i ==> !Accepts(v, cs[j]) {
      if i > 0 {
        assert cs[1..][i - 1] == cs[i];
        forall j | 0 <= j < i - 1 ensures !Accepts(v, cs[1..][j]) {
          assert cs[1..][j] == cs[j + 1];
        }
      }
    }
    if i :| 0 <= i < |cs[1..]| && !Decidable(v, cs[1..][i]) && forall j :: 0 <= j < i ==> !Accepts(v, cs[1..][j]) {
      if !Accepts(v, cs[0]) {
        assert !Decidable(v, cs[i + 1]);
        forall j | 0 <= j < i + 1 ensures !Accepts(v, cs[j]) {
          if j > 0 { assert cs[1..][j - 1] == cs[j]; }
        }
      }
    }
  }

  lemma {:induction false} VerdictConcat(v: Installed, a: seq<Constraint>, b: seq<Constraint>)
    ensures Verdict(v, a + b) == if Verdict(v, a) == Some(false) then Verdict(v, b) else Verdict(v, a)
  {
    if a == [] {
      assert a + b == b;
    } else {
      assert (a + b)[1..] == a[1..] + b;
      VerdictConcat(v, a[1..], b);
    }
  }

  lemma {:induction false} VerdictOfMember(v: Installed, cs: seq<Constraint>, c: Constraint)
    requires Verdict(v, cs) == Some(false) && c in cs
    ensures Decidable(v, c) && !Covers(v, c)
  {
    if c != cs[0] { VerdictOfMember(v, cs[1..], c); }
  }

  /** combinedConstraint.Satisfied, or the single constraint itself. */
  method SatisfiedBy(v: Installed, c: Combined) returns (r: Option<bool>)
    requires c != Nil
    ensures r == Verdict(v, Operands(c))
  {
    if c.One? {
      r := Evaluate(v, c.c);
      return;
    }
    var i := 0;
    while i < |c.operands|
      invariant 0 <= i <= |c.operands|
      invariant Verdict(v, c.operands) == Verdict(v, c.operands[i..])
    {
      assert c.operands[i..][1..] == c.operands[i + 1..];
      var satisfied := Evaluate(v, c.operands[i]);
      if satisfied.None? { return None; }
      if satisfied.value { return Some(true); }
      i := i + 1;
    }
    return Some(false);
  }

  /** Same texts, same constraints: the constraints of one release have one format. */
  ghost predicate OneFormat(cs: seq<Constraint>) {
    forall a, b :: a in cs && b in cs && a.raw == b.raw ==> a == b
  }

  predicate HasText(cs: seq<Constraint>, raw: string) {
    exists c :: c in cs && c.raw == raw
  }

  /** The first constraint of each text, in order. */
  function FirstOfEachText(cs: seq<Constraint>): (r: seq<Constraint>) {
    if cs == [] then []
    else
      var r, last := FirstOfEachText(cs[..|cs| - 1]), cs[|cs| - 1];
      if HasText(r, last.raw) then r else r + [last]
  }

  /** Of each text there is one constraint, and each is a given one. */
  lemma {:induction false} OneOfEachText(cs: seq<Constraint>)
    ensures var r := FirstOfEachText(cs);
            && (forall c :: c in r ==> c in cs)
            && (forall raw :: HasText(r, raw) <==> HasText(cs, raw))
            && (forall i, j :: 0 <= i < j < |r| ==> r[i].raw != r[j].raw)
    ensures FirstOfEachText(cs) == [] <==> cs == []
  {
    if cs != [] {
      var front, last := cs[..|cs| - 1], cs[|cs| - 1];
      OneOfEachText(front);
      assert cs == front + [last];
      forall raw ensures HasText(cs, raw) <==> HasText(front, raw) || raw == last.raw {
        assert last in cs;
      }
      var r := FirstOfEachText(front);
      forall raw ensures HasText(r + [last], raw) <==> HasText(r, raw) || raw == last.raw {
        assert last in r + [last];
      }
      if !HasText(r, last.raw) {
        assert forall i :: 0 <= i < |r| ==> r[i] in r;
      }
    }
  }

  /** The constraint kept for a text is its first one. */
  lemma {:induction false} FirstIsKept(cs: seq<Constraint>, i: nat)
    requires i < |cs| && forall j :: 0 <= j < i ==> cs[j].raw != cs[i].raw
    ensures cs[i] in FirstOfEachText(cs)
  {
    var front, last := cs[..|cs| - 1], cs[|cs| - 1];
    if i < |front| {
      FirstIsKept(front, i);
    } else {
      OneOfEachText(front);
      forall c | c in front ensures c.raw != last.raw {
        var j :| 0 <= j < |front| && front[j] == c;
        assert cs[j] == c;
      }
    }
  }

  lemma SameMembers(cs: seq<Constraint>)
    requires OneFormat(cs)
    ensures forall c :: c in FirstOfEachText(cs) <==> c in cs
  {
    OneOfEachText(cs);
    forall c | c in cs ensures c in FirstOfEachText(cs) {
      assert HasText(cs, c.raw);
      var d :| d in FirstOfEachText(cs) && d.raw == c.raw;
    }
  }

  /** Dropping repeated constraints does not change the verdict. */
  lemma {:induction false} SameVerdict(v: Installed, cs: seq<Constraint>)
    requires OneFormat(cs)
    ensures Verdict(v, FirstOfEachText(cs)) == Verdict(v, cs)
  {
    if cs != [] {
      var front, last := cs[..|cs| - 1], cs[|cs| - 1];
      assert cs == front + [last];
      SameVerdict(v, front);
      SameMembers(front);
      var r := FirstOfEachText(front);
      VerdictConcat(v, front, [last]);
      VerdictConcat(v, r, [last]);
      if HasText(r, last.raw) && Verdict(v, r) == Some(false) {
        var c :| c in r && c.raw == last.raw;
        assert c in front && c == last;
        VerdictOfMember(v, r, last);
      }
    }
  }

  /** uniqueConstraints. */
  method UniqueConstraints(cs: seq<Constraint>) returns (out: seq<Constraint>)
    ensures out == FirstOfEachText(cs)
  {
    out := [];
    var seen: set<string> := {};
    var i := 0;
    while i < |cs|
      invariant 0 <= i <= |cs|
      invariant out == FirstOfEachText(cs[..i])
      invariant forall raw :: raw in seen <==> HasText(out, raw)
    {
      assert cs[..i + 1][..i] == cs[..i];
      if cs[i].raw !in seen {
        forall raw ensures HasText(out + [cs[i]], raw) <==> HasText(out, raw) || raw == cs[i].raw {
          assert cs[i] in out + [cs[i]];
        }
        seen := seen + {cs[i].raw};
        out := out + [cs[i]];
      }
      i := i + 1;
    }
    assert cs[..i] == cs;
  }

  method CombineConstraints(cs: seq<Constraint>) returns (c: Combined)
    ensures c == Nil <==> cs == []
    ensures Operands(c) == FirstOfEachText(cs)
  {
    var unique := UniqueConstraints(cs);
    OneOfEachText(cs);
    if |unique| == 0 { return Nil; }
    if |unique| == 1 {
      assert unique == [unique[0]];
      return One(unique[0]);
    }
    return AnyOf(unique);
  }

  // ----- what the advisories say

  predicate Newer(v: Installed, version: string) {
    v(version).Some? && v(version).value < 0
  }

  /** The fixes of an advisory that the installed version does not have yet. */
  function Needed(v: Installed, a: Advisory): (versions: set<string>) {
    set x | x in a.fix.versions && Newer(v, x)
  }

  method NeededFixes(v: Installed, versions: seq<string>) returns (needed: seq<string>)
    ensures forall x :: x in needed <==> x in versions && Newer(v, x)
  {
    needed := [];
    var i := 0;
    while i < |versions|
      invariant 0 <= i <= |versions|
      invariant forall x :: x in needed <==> x in versions[..i] && Newer(v, x)
    {
      if v(versions[i]).Some? && v(versions[i]).value < 0 { needed := needed + [versions[i]]; }
      i := i + 1;
    }
    assert versions[..i] == versions;
  }

  /** The state after one advisory. */
  function NextState(v: Installed, state: FixState, a: Advisory): (r: FixState) {
    var s := if a.fix.state == WontFix && state != Fixed then WontFix else state;
    if Needed(v, a) != {} && s != Fixed then a.fix.state else s
  }

  function StateAfter(v: Installed, state: FixState, advisories: seq<Advisory>): (r: FixState) {
    if advisories == [] then state
    else NextState(v, StateAfter(v, state, advisories[..|advisories| - 1]), advisories[|advisories| - 1])
  }

  function ContributedConstraints(v: Installed, advisories: seq<Advisory>): (cs: seq<Constraint>) {
    if advisories == [] then []
    else
      var last, rest := advisories[|advisories| - 1], ContributedConstraints(v, advisories[..|advisories| - 1]);
      if Needed(v, last) != {} then rest + [last.constraint] else rest
  }

  function NeededByAll(v: Installed, advisories: seq<Advisory>): (versions: set<string>) {
    if advisories == [] then {}
    else NeededByAll(v, advisories[..|advisories| - 1]) + Needed(v, advisories[|advisories| - 1])
  }

  /** One advisory: its needed fixes, its constraint if there are any, and the state. */
  method CollectOne(v: Installed, advisory: Advisory, state: FixState)
    returns (applicable: set<string>, constraints: seq<Constraint>, state': FixState)
    ensures applicable == Needed(v, advisory)
    ensures constraints == if Needed(v, advisory) != {} then [advisory.constraint] else []
    ensures state' == NextState(v, state, advisory)
  {
    state' := state;
    if advisory.fix.state == WontFix && state' != Fixed { state' := WontFix; }
    var needed := NeededFixes(v, advisory.fix.versions);
    applicable, constraints := set x | x in needed, [];
    assert applicable == Needed(v, advisory);
    if |needed| > 0 {
      assert needed[0] in applicable;
      constraints := [advisory.constraint];
      if state' != Fixed { state' := advisory.fix.state; }
    }
  }

  lemma ContributedNext(v: Installed, advisories: seq<Advisory>, i: nat)
    requires i < |advisories|
    ensures ContributedConstraints(v, advisories[..i + 1]) ==
            ContributedConstraints(v, advisories[..i])
            + (if Needed(v, advisories[i]) != {} then [advisories[i].constraint] else [])
    ensures NeededByAll(v, advisories[..i + 1]) == NeededByAll(v, advisories[..i]) + Needed(v, advisories[i])
    ensures forall s :: StateAfter(v, s, advisories[..i + 1]) == NextState(v, StateAfter(v, s, advisories[..i]), advisories[i])
  {
    assert advisories[..i + 1][..i] == advisories[..i];
  }

  /** collectMatchingConstraintsDetailsAndFixState, one overlay. */
  method Collect(v: Installed, overlay: Overlay, fixVersions: set<string>, constraints: seq<Constraint>,
                 state: FixState, details: seq<string>)
    returns (fixVersions': set<string>, constraints': seq<Constraint>, state': FixState, details': seq<string>)
    ensures fixVersions' == fixVersions + NeededByAll(v, overlay.advisories)
    ensures constraints' == constraints + ContributedConstraints(v, overlay.advisories)
    ensures state' == StateAfter(v, state, overlay.advisories)
    ensures details' == if ContributedConstraints(v, overlay.advisories) != [] then details + overlay.details else details
  {
    var fixes: set<string>, kept: seq<Constraint>, i := {}, [], 0;
    state' := state;
    ghost var all := overlay.advisories;
    while i < |overlay.advisories|
      invariant 0 <= i <= |all|
      invariant fixes == NeededByAll(v, all[..i])
      invariant kept == ContributedConstraints(v, all[..i])
      invariant state' == StateAfter(v, state, all[..i])
    {
      ContributedNext(v, all, i);
      var applicable, cs, next := CollectOne(v, overlay.advisories[i], state');
      fixes, kept, state' := fixes + applicable, kept + cs, next;
      i := i + 1;
    }
    assert all[..i] == all;
    fixVersions', constraints', details' := fixVersions + fixes, constraints + kept, details;
    if |kept| > 0 && |overlay.details| > 0 {
      details' := details' + overlay.details;
    }
    assert overlay.details == [] ==> details + overlay.details == details;
  }

  // ----- the merged record

  datatype Record = Record(id: string, constraint: Combined, fix: Fix)

  function FixConstraint(version: string): (c: Constraint) {
    Constraint("< " + version, [[Unit(LT, version)]])
  }

  function FinalState(record: FixState, state: FixState): (r: FixState) {
    if state != NoState && state != Unknown then state
    else if record != Unknown then record
    else Unknown
  }

  /** Every version of the set once, in some order. */
  method Values(versions: set<string>) returns (out: seq<string>)
    ensures forall x :: x in out <==> x in versions
    ensures |out| == |versions|
  {
    out := [];
    var rest := versions;
    while rest != {}
      invariant rest <= versions && |out| == |versions| - |rest|
      invariant forall x :: x in out <==> x in versions - rest
      decreases rest
    {
      var x :| x in rest;
      out, rest := out + [x], rest - {x};
    }
  }

  /** The constraints that the fixes add; parses tells for which fix version `< version` parses. */
  ghost predicate AreFixConstraints(parses: string -> bool, fixed: bool, fixVersions: set<string>, cs: seq<Constraint>) {
    forall c :: c in cs <==> fixed && exists x :: x in fixVersions && parses(x) && c == FixConstraint(x)
  }

  /** The operands are the gathered constraints and then those of the fixes, one of each text. */
  ghost predicate IsCombination(parses: string -> bool, fixed: bool, fixVersions: set<string>, cs: seq<Constraint>,
                                operands: seq<Constraint>) {
    exists extra :: AreFixConstraints(parses, fixed, fixVersions, extra) && operands == FirstOfEachText(cs + extra)
  }

  /** The constraints of the fixes, after the gathered ones. */
  method AppendFixConstraints(parses: string -> bool, fixVersions: set<string>, constraints: seq<Constraint>)
    returns (versions: seq<string>, cs: seq<Constraint>, ghost extra: seq<Constraint>)
    ensures forall x :: x in versions <==> x in fixVersions
    ensures cs == constraints + extra && AreFixConstraints(parses, true, fixVersions, extra)
  {
    versions := Values(fixVersions);
    cs, extra := constraints, [];
    var i := 0;
    while i < |versions|
      invariant 0 <= i <= |versions| && cs == constraints + extra
      invariant forall c :: c in extra <==>
                  exists j :: 0 <= j < i && parses(versions[j]) && c == FixConstraint(versions[j])
    {
      if parses(versions[i]) {
        cs, extra := cs + [FixConstraint(versions[i])], extra + [FixConstraint(versions[i])];
      }
      i := i + 1;
    }
    forall c ensures c in extra <==> exists x :: x in fixVersions && parses(x) && c == FixConstraint(x) {
      if x :| x in fixVersions && parses(x) && c == FixConstraint(x) {
        assert x in versions;
      }
    }
  }

  /** buildPatchedVulnerabilityRecord. */
  method BuildPatchedRecord(parses: string -> bool, disclosure: Disclosure, fixVersions: set<string>,
                            constraints: seq<Constraint>, state: FixState)
    returns (r: Record)
    requires constraints != []
    ensures r.id == disclosure.id && r.fix.state == FinalState(disclosure.fix.state, state)
    ensures if state == Fixed then forall x :: x in r.fix.versions <==> x in fixVersions
            else r.fix.versions == disclosure.fix.versions
    ensures r.constraint != Nil
    ensures IsCombination(parses, state == Fixed, fixVersions, constraints, Operands(r.constraint))
  {
    var versions, cs := disclosure.fix.versions, constraints;
    ghost var extra := [];
    if state == Fixed {
      versions, cs, extra := AppendFixConstraints(parses, fixVersions, constraints);
    }
    assert cs == constraints + extra && AreFixConstraints(parses, state == Fixed, fixVersions, extra);
    var constraint := CombineConstraints(cs);
    r := Record(disclosure.id, constraint, Fix(FinalState(disclosure.fix.state, state), versions));
  }

  function AllAdvisories(overlays: seq<Overlay>): (advisories: seq<Advisory>) {
    if overlays == [] then [] else AllAdvisories(overlays[..|overlays| - 1]) + overlays[|overlays| - 1].advisories
  }

  lemma {:induction false} StateConcat(v: Installed, state: FixState, a: seq<Advisory>, b: seq<Advisory>)
    ensures StateAfter(v, state, a + b) == StateAfter(v, StateAfter(v, state, a), b)
  {
    if b == [] {
      assert a + b == a;
    } else {
      StateConcat(v, state, a, b[..|b| - 1]);
      FrontOfConcat(a, b);
    }
  }

  lemma {:induction false} ContributedConcat(v: Installed, a: seq<Advisory>, b: seq<Advisory>)
    ensures ContributedConstraints(v, a + b) == ContributedConstraints(v, a) + ContributedConstraints(v, b)
  {
    if b == [] {
      assert a + b == a;
    } else {
      ContributedConcat(v, a, b[..|b| - 1]);
      FrontOfConcat(a, b);
    }
  }

  lemma {:induction false} NeededConcat(v: Installed, a: seq<Advisory>, b: seq<Advisory>)
    ensures NeededByAll(v, a + b) == NeededByAll(v, a) + NeededByAll(v, b)
  {
    if b == [] {
      assert a + b == a;
    } else {
      NeededConcat(v, a, b[..|b| - 1]);
      FrontOfConcat(a, b);
    }
  }

  /** What a list of advisories contributes is what its two parts contribute one after the other. */
  lemma FoldConcat(v: Installed, state: FixState, a: seq<Advisory>, b: seq<Advisory>)
    ensures StateAfter(v, state, a + b) == StateAfter(v, StateAfter(v, state, a), b)
    ensures ContributedConstraints(v, a + b) == ContributedConstraints(v, a) + ContributedConstraints(v, b)
    ensures NeededByAll(v, a + b) == NeededByAll(v, a) + NeededByAll(v, b)
  {
    StateConcat(v, state, a, b);
    ContributedConcat(v, a, b);
    NeededConcat(v, a, b);
  }

  /** The installed version lies in the disclosure's own constraint. */
  ghost predicate DisclosureCovers(v: Installed, d: Disclosure) {
    d.constraint.Some? && Decidable(v, d.constraint.value) && Covers(v, d.constraint.value)
  }

  method IsVulnerableVersion(v: Installed, d: Disclosure) returns (r: bool)
    ensures r <==> DisclosureCovers(v, d)
  {
    if d.constraint.None? { return false; }
    var result := Evaluate(v, d.constraint.value);
    return result == Some(true);
  }

  /** The constraints gathered for a disclosure before fix versions are added. */
  ghost function Gathered(v: Installed, d: Disclosure, advisories: seq<Advisory>): (cs: seq<Constraint>) {
    (if DisclosureCovers(v, d) then [d.constraint.value] else []) + ContributedConstraints(v, advisories)
  }

  /** The constraints a record is built from. */
  ghost predicate CandidateFor(v: Installed, parses: string -> bool, d: Disclosure, advisories: seq<Advisory>, c: Constraint) {
    || c in Gathered(v, d, advisories)
    || (StateAfter(v, NoState, advisories) == Fixed
        && exists x :: x in NeededByAll(v, advisories) && parses(x) && c == FixConstraint(x))
  }

  /** Same texts, same constraints: the constraints of one release have one format. */
  ghost predicate OneReleaseFormat(v: Installed, parses: string -> bool, d: Disclosure, advisories: seq<Advisory>) {
    forall a, b | CandidateFor(v, parses, d, advisories, a) && CandidateFor(v, parses, d, advisories, b) ::
      a.raw == b.raw ==> a == b
  }

  /** The merge of one disclosure with its advisories can end in r. */
  ghost predicate Merged(v: Installed, parses: string -> bool, d: Disclosure, advisories: seq<Advisory>, r: Option<Record>) {
    var state := StateAfter(v, NoState, advisories);
    && (r.None? <==> Gathered(v, d, advisories) == [])
    && (r.Some? ==>
          && r.value.id == d.id
          && r.value.fix.state == FinalState(d.fix.state, state)
          && (if state == Fixed then forall x :: x in r.value.fix.versions <==> x in NeededByAll(v, advisories)
              else r.value.fix.versions == d.fix.versions)
          && r.value.constraint != Nil
          && IsCombination(parses, state == Fixed, NeededByAll(v, advisories), Gathered(v, d, advisories),
                           Operands(r.value.constraint)))
  }

  /** The operands of a merged record, before repeated ones are dropped. */
  lemma OperandsOf(v: Installed, parses: string -> bool, d: Disclosure, advisories: seq<Advisory>, r: Option<Record>)
    returns (extra: seq<Constraint>)
    requires Merged(v, parses, d, advisories, r) && r.Some? && OneReleaseFormat(v, parses, d, advisories)
    ensures AreFixConstraints(parses, StateAfter(v, NoState, advisories) == Fixed, NeededByAll(v, advisories), extra)
    ensures OneFormat(Gathered(v, d, advisories) + extra)
    ensures Operands(r.value.constraint) == FirstOfEachText(Gathered(v, d, advisories) + extra)
  {
    extra :| AreFixConstraints(parses, StateAfter(v, NoState, advisories) == Fixed, NeededByAll(v, advisories), extra)
             && Operands(r.value.constraint) == FirstOfEachText(Gathered(v, d, advisories) + extra);
    forall c | c in Gathered(v, d, advisories) + extra ensures CandidateFor(v, parses, d, advisories, c) {
    }
  }

  /** As a set, the operands are the candidates. */
  lemma OperandsAreCandidates(v: Installed, parses: string -> bool, d: Disclosure, advisories: seq<Advisory>, r: Option<Record>)
    requires Merged(v, parses, d, advisories, r) && r.Some? && OneReleaseFormat(v, parses, d, advisories)
    ensures forall c :: c in Operands(r.value.constraint) <==> CandidateFor(v, parses, d, advisories, c)
  {
    var extra := OperandsOf(v, parses, d, advisories, r);
    SameMembers(Gathered(v, d, advisories) + extra);
  }

  /** The details of the overlays that have an advisory with a needed fix. */
  function KeptDetails(v: Installed, overlays: seq<Overlay>): (details: seq<string>) {
    if overlays == [] then []
    else
      var last, rest := overlays[|overlays| - 1], KeptDetails(v, overlays[..|overlays| - 1]);
      if ContributedConstraints(v, last.advisories) != [] then rest + last.details else rest
  }

  lemma CollectNext(v: Installed, own: seq<Constraint>, overlays: seq<Overlay>, i: nat)
    requires i < |overlays|
    ensures var before, after, here := AllAdvisories(overlays[..i]), AllAdvisories(overlays[..i + 1]), overlays[i].advisories;
            && NeededByAll(v, after) == NeededByAll(v, before) + NeededByAll(v, here)
            && own + ContributedConstraints(v, after) ==
               own + ContributedConstraints(v, before) + ContributedConstraints(v, here)
            && StateAfter(v, NoState, after) == StateAfter(v, StateAfter(v, NoState, before), here)
            && KeptDetails(v, overlays[..i + 1]) ==
               KeptDetails(v, overlays[..i]) + (if ContributedConstraints(v, here) != [] then overlays[i].details else [])
  {
    assert overlays[..i + 1][..i] == overlays[..i];
    FoldConcat(v, NoState, AllAdvisories(overlays[..i]), overlays[i].advisories);
  }

  /** The loop over the overlays. */
  method GatherOverlays(v: Installed, own: seq<Constraint>, overlays: seq<Overlay>)
    returns (fixVersions: set<string>, constraints: seq<Constraint>, state: FixState, details: seq<string>)
    ensures fixVersions == NeededByAll(v, AllAdvisories(overlays))
    ensures constraints == own + ContributedConstraints(v, AllAdvisories(overlays))
    ensures state == StateAfter(v, NoState, AllAdvisories(overlays))
    ensures details == KeptDetails(v, overlays)
  {
    fixVersions, constraints, state, details := {}, own, NoState, [];
    var i := 0;
    while i < |overlays|
      invariant 0 <= i <= |overlays|
      invariant fixVersions == NeededByAll(v, AllAdvisories(overlays[..i]))
      invariant constraints == own + ContributedConstraints(v, AllAdvisories(overlays[..i]))
      invariant state == StateAfter(v, NoState, AllAdvisories(overlays[..i]))
      invariant details == KeptDetails(v, overlays[..i])
    {
      CollectNext(v, own, overlays, i);
      fixVersions, constraints, state, details :=
        Collect(v, overlays[i], fixVersions, constraints, state, details);
      i := i + 1;
    }
    assert overlays[..i] == overlays;
  }

  /** mergeESMAdvisoryIntoSingleDisclosure. */
  method MergeIntoDisclosure(v: Installed, parses: string -> bool, d: Disclosure, overlays: seq<Overlay>)
    returns (r: Option<Record>, details: seq<string>)
    ensures Merged(v, parses, d, AllAdvisories(overlays), r)
    ensures details == if r.Some? then KeptDetails(v, overlays) else []
  {
    var vulnerable := IsVulnerableVersion(v, d);
    var fixVersions, constraints, state;
    fixVersions, constraints, state, details :=
      GatherOverlays(v, if vulnerable then [d.constraint.value] else [], overlays);
    if |constraints| == 0 { return None, []; }
    var record := BuildPatchedRecord(parses, d, fixVersions, constraints, state);
    r := Some(record);
  }

  // ----- what the folds hold

  ghost predicate AllShaped(advisories: seq<Advisory>) {
    forall a :: a in advisories ==> Shaped(a.fix)
  }

  ghost predicate SomeNeeded(v: Installed, advisories: seq<Advisory>) {
    exists a :: a in advisories && Needed(v, a) != {}
  }

  lemma {:induction false} ContributedMembers(v: Installed, advisories: seq<Advisory>, c: Constraint)
    ensures c in ContributedConstraints(v, advisories) <==>
            exists a :: a in advisories && Needed(v, a) != {} && a.constraint == c
    ensures ContributedConstraints(v, advisories) == [] <==> !SomeNeeded(v, advisories)
  {
    if advisories != [] {
      var front, last := advisories[..|advisories| - 1], advisories[|advisories| - 1];
      assert advisories == front + [last];
      ContributedMembers(v, front, c);
    }
  }

  lemma {:induction false} NeededMembers(v: Installed, advisories: seq<Advisory>, x: string)
    ensures x in NeededByAll(v, advisories) <==> exists a :: a in advisories && x in Needed(v, a)
  {
    if advisories != [] {
      var front, last := advisories[..|advisories| - 1], advisories[|advisories| - 1];
      assert advisories == front + [last];
      NeededMembers(v, front, x);
    }
  }

  // ----- the state

  /** Some advisory with a needed fix is in the state Fixed. */
  ghost predicate SomeNeededFixed(v: Installed, advisories: seq<Advisory>) {
    exists a :: a in advisories && Needed(v, a) != {} && a.fix.state == Fixed
  }

  /** The advisory sets the state, unless it is Fixed already. */
  ghost predicate Acts(v: Installed, a: Advisory) {
    Needed(v, a) != {} || a.fix.state == WontFix
  }

  lemma ActingSetsState(v: Installed, state: FixState, a: Advisory)
    ensures NextState(v, state, a) == if state != Fixed && Acts(v, a) then a.fix.state else state
  {
  }

  /** In any order: Fixed if an advisory with a needed fix says so, else the state of an advisory that acts. */
  lemma {:induction false} StateExactly(v: Installed, advisories: seq<Advisory>)
    ensures var state := StateAfter(v, NoState, advisories);
            && (state == Fixed <==> SomeNeededFixed(v, advisories))
            && (!SomeNeededFixed(v, advisories) ==>
                  || (state == NoState && forall a :: a in advisories ==> !Acts(v, a))
                  || exists a :: a in advisories && Acts(v, a) && a.fix.state == state)
  {
    if advisories != [] {
      var front, last := advisories[..|advisories| - 1], advisories[|advisories| - 1];
      assert advisories == front + [last];
      StateExactly(v, front);
      ActingSetsState(v, StateAfter(v, NoState, front), last);
      assert last in advisories && forall a :: a in front ==> a in advisories;
    }
  }

  /** With fixes shaped as toFix makes them: fixed if some fix is needed, else won't-fix if an advisory says so. */
  lemma ShapedState(v: Installed, advisories: seq<Advisory>)
    requires AllShaped(advisories)
    ensures StateAfter(v, NoState, advisories) ==
            if SomeNeeded(v, advisories) then Fixed
            else if exists a :: a in advisories && a.fix.state == WontFix then WontFix
            else NoState
  {
    StateExactly(v, advisories);
    if a :| a in advisories && Needed(v, a) != {} {
      var x :| x in Needed(v, a);
      assert a.fix.versions != [];
    }
  }

  // ----- kept records are satisfied

  lemma NewerIsCovered(v: Installed, version: string)
    requires Newer(v, version)
    ensures Accepts(v, FixConstraint(version))
  {
    var c := FixConstraint(version);
    assert GroupHolds(v, c.units[0]);
  }

  /** Some needed fix gives a constraint that parses. */
  ghost predicate SomeFixParses(v: Installed, parses: string -> bool, advisories: seq<Advisory>) {
    exists x :: x in NeededByAll(v, advisories) && parses(x)
  }

  /** A fix is needed exactly when the installed version satisfies the constraint `< fix`. */
  lemma NeededIsBelow(v: Installed, a: Advisory, x: string)
    ensures x in Needed(v, a) <==> x in a.fix.versions && Accepts(v, Constraint("< " + x, [[Unit(LT, x)]]))
  {
    var c := FixConstraint(x);
    if Accepts(v, c) {
      assert GroupHolds(v, c.units[0]);
      assert c.units[0][0] == Unit(LT, x);
    }
    if Newer(v, x) { NewerIsCovered(v, x); }
  }

  /** The state of the record: what the advisories say unless that is nothing or unknown, else its own. */
  lemma FinalStateIs(record: FixState, state: FixState)
    ensures state in [Fixed, WontFix, NotFixed] ==> FinalState(record, state) == state
    ensures state in [NoState, Unknown] ==> FinalState(record, state) == record
  {
  }

  lemma DetailsOfOne(v: Installed, o: Overlay)
    ensures KeptDetails(v, [o]) == if SomeNeeded(v, o.advisories) then o.details else []
  {
    NothingContributed(v, o.advisories);
    assert KeptDetails(v, [o][..0]) == [];
    assert [] + o.details == o.details;
  }

  /** The details come in the order of the overlays. */
  lemma {:induction false} DetailsInOrder(v: Installed, a: seq<Overlay>, b: seq<Overlay>)
    ensures KeptDetails(v, a + b) == KeptDetails(v, a) + KeptDetails(v, b)
    ensures forall o :: KeptDetails(v, [o]) == if SomeNeeded(v, o.advisories) then o.details else []
    decreases |b|
  {
    forall o: Overlay ensures KeptDetails(v, [o]) == if SomeNeeded(v, o.advisories) then o.details else [] {
      DetailsOfOne(v, o);
    }
    if b == [] {
      assert a + b == a;
    } else {
      DetailsInOrder(v, a, b[..|b| - 1]);
      FrontOfConcat(a, b);
    }
  }

  lemma {:induction false} DetailsExactly(v: Installed, overlays: seq<Overlay>, d: string)
    ensures d in KeptDetails(v, overlays) <==>
            exists o :: o in overlays && d in o.details && SomeNeeded(v, o.advisories)
  {
    if overlays != [] {
      var front, last := overlays[..|overlays| - 1], overlays[|overlays| - 1];
      DetailsExactly(v, front, d);
      NothingContributed(v, last.advisories);
      assert overlays == front + [last];
    }
  }

  lemma NothingContributed(v: Installed, advisories: seq<Advisory>)
    ensures ContributedConstraints(v, advisories) == [] <==> !SomeNeeded(v, advisories)
  {
    ContributedMembers(v, advisories, FixConstraint(""));
  }

  /** The constraints of needed fixes all accept, so evaluating them says whether there are any. */
  lemma FixesAccept(v: Installed, parses: string -> bool, fixed: bool, advisories: seq<Advisory>, extra: seq<Constraint>)
    requires AreFixConstraints(parses, fixed, NeededByAll(v, advisories), extra)
    ensures Verdict(v, extra) == Some(true) <==> fixed && SomeFixParses(v, parses, advisories)
  {
    if extra != [] {
      assert extra[0] in extra;
      var x :| x in NeededByAll(v, advisories) && parses(x) && extra[0] == FixConstraint(x);
      NeededMembers(v, advisories, x);
      NewerIsCovered(v, x);
    } else if fixed {
      forall x | x in NeededByAll(v, advisories) ensures !parses(x) {
        assert FixConstraint(x) !in extra;
      }
    }
  }

  /** What the combined constraint of a kept record answers. */
  lemma KeptVerdict(v: Installed, parses: string -> bool, d: Disclosure, advisories: seq<Advisory>, r: Option<Record>)
    requires Merged(v, parses, d, advisories, r) && r.Some? && OneReleaseFormat(v, parses, d, advisories)
    ensures var own, verdict := Verdict(v, Gathered(v, d, advisories)), Verdict(v, Operands(r.value.constraint));
            && (own != Some(false) ==> verdict == own)
            && (own == Some(false) ==>
                  (verdict == Some(true) <==> SomeNeededFixed(v, advisories) && SomeFixParses(v, parses, advisories)))
  {
    var extra := OperandsOf(v, parses, d, advisories, r);
    SameVerdict(v, Gathered(v, d, advisories) + extra);
    VerdictConcat(v, Gathered(v, d, advisories), extra);
    FixesAccept(v, parses, StateAfter(v, NoState, advisories) == Fixed, advisories, extra);
    StateExactly(v, advisories);
  }

  /**
   When the combined constraint of a kept record evaluates to true for the installed version: no
   gathered constraint fails before one accepts, and one accepts or a needed fix gives a constraint.
   */
  lemma SatisfiedExactly(v: Installed, parses: string -> bool, d: Disclosure, advisories: seq<Advisory>, r: Option<Record>)
    requires Merged(v, parses, d, advisories, r) && r.Some? && OneReleaseFormat(v, parses, d, advisories)
    ensures Verdict(v, Operands(r.value.constraint)) == Some(true) <==>
            && !Blocked(v, Gathered(v, d, advisories))
            && (SomeAccepts(v, Gathered(v, d, advisories))
                || (SomeNeededFixed(v, advisories) && SomeFixParses(v, parses, advisories)))
  {
    KeptVerdict(v, parses, d, advisories, r);
    VerdictMeans(v, Gathered(v, d, advisories));
  }

  lemma DisclosureUnblocks(v: Installed, d: Disclosure, advisories: seq<Advisory>)
    requires DisclosureCovers(v, d)
    ensures !Blocked(v, Gathered(v, d, advisories)) && d.constraint.value in Gathered(v, d, advisories)
  {
    assert Gathered(v, d, advisories)[0] == d.constraint.value;
  }

  /**
   A kept record is always satisfied by the installed version, unless an advisory's constraint cannot
   be evaluated, the disclosure's own does not accept, and nor does any before the failing one.
   */
  lemma KeptIsSatisfied(v: Installed, parses: string -> bool, d: Disclosure, advisories: seq<Advisory>, r: Option<Record>)
    requires Merged(v, parses, d, advisories, r) && r.Some? && OneReleaseFormat(v, parses, d, advisories)
    requires AllShaped(advisories)
    requires forall x :: x in NeededByAll(v, advisories) ==> parses(x)
    ensures Verdict(v, Operands(r.value.constraint)) == Some(true) <==>
            DisclosureCovers(v, d) || !Blocked(v, ContributedConstraints(v, advisories))
  {
    SatisfiedExactly(v, parses, d, advisories, r);
    if DisclosureCovers(v, d) {
      DisclosureUnblocks(v, d, advisories);
    } else {
      assert Gathered(v, d, advisories) == ContributedConstraints(v, advisories) != [];
      ContributedMembers(v, advisories, ContributedConstraints(v, advisories)[0]);
      var a :| a in advisories && Needed(v, a) != {};
      var x :| x in Needed(v, a);
      NeededMembers(v, advisories, x);
      assert a.fix.versions != [];
    }
  }

  /** Without comparison errors a kept record is always satisfied. */
  lemma KeptIsSatisfiedWithoutErrors(v: Installed, parses: string -> bool, d: Disclosure, advisories: seq<Advisory>,
                                     r: Option<Record>)
    requires Merged(v, parses, d, advisories, r) && r.Some? && OneReleaseFormat(v, parses, d, advisories)
    requires AllShaped(advisories)
    requires forall x :: x in NeededByAll(v, advisories) ==> parses(x)
    requires forall a :: a in advisories && Needed(v, a) != {} ==> Decidable(v, a.constraint)
    ensures Verdict(v, Operands(r.value.constraint)) == Some(true)
  {
    KeptIsSatisfied(v, parses, d, advisories, r);
    forall c | c in ContributedConstraints(v, advisories) ensures Decidable(v, c) {
      ContributedMembers(v, advisories, c);
    }
  }

  lemma OneContribution(v: Installed, a: Advisory)
    requires Needed(v, a) != {}
    ensures ContributedConstraints(v, [a]) == [a.constraint]
  {
    assert [a][..0] == [];
    assert ContributedConstraints(v, [a][..0]) == [];
    assert ContributedConstraints(v, [a]) == [] + [a.constraint];
  }

  /** A record kept because of one advisory whose constraint fails to evaluate: its constraint fails too. */
  lemma FailingAdvisoryBlocks(v: Installed, parses: string -> bool, d: Disclosure, a: Advisory, r: Option<Record>)
    requires d.constraint.None? && Needed(v, a) != {} && !Decidable(v, a.constraint)
    requires Merged(v, parses, d, [a], r) && OneReleaseFormat(v, parses, d, [a])
    ensures r.Some? && Verdict(v, Operands(r.value.constraint)) == None
  {
    OneContribution(v, a);
    assert Gathered(v, d, [a]) == [] + [a.constraint] == [a.constraint];
    KeptVerdict(v, parses, d, [a], r);
  }

  /** The state of a kept record: fixed when a fix is needed, else won't-fix, else the disclosure's own. */
  lemma KeptState(v: Installed, parses: string -> bool, d: Disclosure, advisories: seq<Advisory>, r: Option<Record>)
    requires Merged(v, parses, d, advisories, r) && r.Some? && AllShaped(advisories)
    ensures var wontFix := exists a :: a in advisories && a.fix.state == WontFix;
            && (SomeNeeded(v, advisories) ==> r.value.fix.state == Fixed)
            && (!SomeNeeded(v, advisories) ==> r.value.fix.versions == d.fix.versions)
            && (!SomeNeeded(v, advisories) && wontFix ==> r.value.fix.state == WontFix)
            && (!SomeNeeded(v, advisories) && !wontFix ==> r.value.fix.state == d.fix.state && DisclosureCovers(v, d))
  {
    ShapedState(v, advisories);
    if !DisclosureCovers(v, d) {
      assert ContributedConstraints(v, advisories) != [];
      ContributedMembers(v, advisories, ContributedConstraints(v, advisories)[0]);
    }
  }

  // ----- the order of the overlays

  ghost predicate SameAdvisories(a: seq<Advisory>, b: seq<Advisory>) {
    forall x :: x in a <==> x in b
  }

  /** The fix state of the record. */
  function RecordState(v: Installed, d: Disclosure, advisories: seq<Advisory>): (state: FixState) {
    FinalState(d.fix.state, StateAfter(v, NoState, advisories))
  }

  /** All advisories that set the state lead to one state of the record. */
  ghost predicate ActAlike(v: Installed, d: Disclosure, advisories: seq<Advisory>) {
    forall a, b :: a in advisories && b in advisories && Acts(v, a) && Acts(v, b) ==>
                     FinalState(d.fix.state, a.fix.state) == FinalState(d.fix.state, b.fix.state)
  }

  ghost predicate Settled(v: Installed, d: Disclosure, advisories: seq<Advisory>) {
    SomeNeededFixed(v, advisories) || ActAlike(v, d, advisories)
  }

  lemma ShapedIsSettled(v: Installed, d: Disclosure, advisories: seq<Advisory>)
    requires AllShaped(advisories)
    ensures Settled(v, d, advisories)
  {
    if a :| a in advisories && Needed(v, a) != {} {
      var x :| x in Needed(v, a);
      assert a.fix.versions != [];
    }
  }

  lemma SettledState(v: Installed, d: Disclosure, a: seq<Advisory>, b: seq<Advisory>)
    requires Settled(v, d, a) && SameAdvisories(a, b)
    ensures RecordState(v, d, a) == RecordState(v, d, b)
  {
    StateExactly(v, a);
    StateExactly(v, b);
  }

  lemma LastOneActs(v: Installed, d: Disclosure, advisories: seq<Advisory>, x: Advisory)
    returns (reordered: seq<Advisory>)
    requires x in advisories && Acts(v, x) && !SomeNeededFixed(v, advisories)
    ensures multiset(reordered) == multiset(advisories)
    ensures RecordState(v, d, reordered) == FinalState(d.fix.state, x.fix.state)
  {
    var i :| 0 <= i < |advisories| && advisories[i] == x;
    var front := advisories[..i] + advisories[i + 1..];
    reordered := front + [x];
    assert advisories == advisories[..i] + [x] + advisories[i + 1..];
    StateExactly(v, front);
    assert forall a :: a in front ==> a in advisories;
    ActingSetsState(v, StateAfter(v, NoState, front), x);
    assert reordered[..|front|] == front;
  }

  /**
   The state of the record is the same for every order of the advisories exactly when an advisory
   with a needed fix is fixed, or all advisories that set the state lead to one state.
   */
  lemma OrderMattersExactly(v: Installed, d: Disclosure, advisories: seq<Advisory>)
    ensures Settled(v, d, advisories) <==>
            forall other: seq<Advisory> | multiset(other) == multiset(advisories) ::
              RecordState(v, d, other) == RecordState(v, d, advisories)
  {
    if Settled(v, d, advisories) {
      forall other: seq<Advisory> | multiset(other) == multiset(advisories)
        ensures RecordState(v, d, other) == RecordState(v, d, advisories)
      {
        forall x ensures x in advisories <==> x in other {
          assert x in advisories <==> x in multiset(advisories);
          assert x in other <==> x in multiset(other);
        }
        SettledState(v, d, advisories, other);
      }
    } else {
      var x, y :| x in advisories && y in advisories && Acts(v, x) && Acts(v, y)
                  && FinalState(d.fix.state, x.fix.state) != FinalState(d.fix.state, y.fix.state);
      var a := LastOneActs(v, d, advisories, x);
      var b := LastOneActs(v, d, advisories, y);
    }
  }

  lemma SameGathered(v: Installed, d: Disclosure, a: seq<Advisory>, b: seq<Advisory>)
    requires SameAdvisories(a, b)
    ensures NeededByAll(v, a) == NeededByAll(v, b)
    ensures forall c :: c in Gathered(v, d, a) <==> c in Gathered(v, d, b)
    ensures Gathered(v, d, a) == [] <==> Gathered(v, d, b) == []
  {
    forall x ensures x in NeededByAll(v, a) <==> x in NeededByAll(v, b) {
      NeededMembers(v, a, x);
      NeededMembers(v, b, x);
    }
    forall c ensures c in Gathered(v, d, a) <==> c in Gathered(v, d, b) {
      ContributedMembers(v, a, c);
      ContributedMembers(v, b, c);
    }
    if Gathered(v, d, a) != [] { assert Gathered(v, d, a)[0] in Gathered(v, d, a); }
    if Gathered(v, d, b) != [] { assert Gathered(v, d, b)[0] in Gathered(v, d, b); }
  }

  /**
   Verdict, fix versions and operands depend only on which advisories there are, not on their order or
   their distribution over overlays; so does the fix state for advisories that are shaped or settled.
   */
  lemma OrderDoesNotMatter(v: Installed, parses: string -> bool, d: Disclosure,
                           a: seq<Advisory>, r: Option<Record>, b: seq<Advisory>, q: Option<Record>)
    requires Merged(v, parses, d, a, r) && Merged(v, parses, d, b, q) && SameAdvisories(a, b)
    ensures r.None? <==> q.None?
    ensures r.Some? ==> forall x :: x in r.value.fix.versions <==> x in q.value.fix.versions
    ensures r.Some? && OneReleaseFormat(v, parses, d, a) ==>
              forall c :: c in Operands(r.value.constraint) <==> c in Operands(q.value.constraint)
    ensures r.Some? && (AllShaped(a) || Settled(v, d, a)) ==> r.value.fix.state == q.value.fix.state
  {
    SameGathered(v, d, a, b);
    StateExactly(v, a);
    StateExactly(v, b);
    if r.Some? {
      if OneReleaseFormat(v, parses, d, a) {
        OperandsAreCandidates(v, parses, d, a, r);
        OperandsAreCandidates(v, parses, d, b, q);
      }
      if AllShaped(a) { ShapedIsSettled(v, d, a); }
      if Settled(v, d, a) { SettledState(v, d, a, b); }
    }
  }

  /** Two unshaped advisories whose order decides: not-fixed with a needed version, and won't-fix. */
  lemma UnshapedDependsOnOrder(v: Installed, c: Constraint, d: Disclosure)
    requires Newer(v, "2")
    ensures var a, b := Advisory("a", c, Fix(NotFixed, ["2"])), Advisory("b", c, Fix(WontFix, []));
            RecordState(v, d, [a, b]) == WontFix && RecordState(v, d, [b, a]) == NotFixed
  {
    var a, b := Advisory("a", c, Fix(NotFixed, ["2"])), Advisory("b", c, Fix(WontFix, []));
    assert "2" in a.fix.versions && "2" in Needed(v, a);
    assert Needed(v, b) == {};
    TwoAdvisories(v, a, b);
    TwoAdvisories(v, b, a);
  }

  lemma TwoAdvisories(v: Installed, a: Advisory, b: Advisory)
    ensures StateAfter(v, NoState, [a, b]) == NextState(v, NextState(v, NoState, a), b)
  {
    assert [a, b][..1] == [a] && [a][..0] == [];
    assert StateAfter(v, NoState, [a]) == NextState(v, NoState, a);
  }
}
