/**
 Ignore rules and the index that replaces a linear scan of them. Regular expressions and glob
 patterns are matched by foreign engines, which are parameters here.
 */
module IgnoreIndex {
  import opened Findings
  import opened Prelude

  /** regex(pattern, text) and glob(pattern, path); a pattern that does not compile matches nothing. */
  datatype Engines = Engines(regex: (string, string) -> bool, glob: (string, string) -> bool)

  datatype RulePackage = RulePackage(
    name: string,
    version: string,
    language: string,
    ty: string,
    location: string,
    upstreamName: string
  )

  /** An empty string, or None for the match type, means that the criterion is not specified. */
  datatype Rule = Rule(
    vulnerability: string,
    includeAliases: bool,
    reason: string,
    namespace: string,
    fixState: string,
    pkg: RulePackage,
    vexStatus: string,
    vexJustification: string,
    matchType: Option<MatchType>
  )

  const NO_RULE :=
    Rule("", false, "", "", "", RulePackage("", "", "", "", "", ""), "", "", None)

  datatype Filter =
    | ByRule(rule: Rule)
    | ByRelatedPackage(reason: string, relationship: string, vulnerabilityID: string, relatedPackageID: string)

  // ----- one filter on one match

  const REGEX_CHARACTERS := {'^', '$', '*', '+', '?', '[', ']', '(', ')', '{', '}', '|', '\\'}

  predicate IsLikelyARegex(s: string) {
    exists i :: 0 <= i < |s| && s[i] in REGEX_CHARACTERS
  }

  function Anchored(name: string): (pattern: string)
    requires name != ""
  {
    if name[0] != '$' || name[|name| - 1] != '^' then "^" + name + "$" else name
  }

  predicate NameApplies(e: Engines, name: string, text: string) {
    if IsLikelyARegex(name) then e.regex(Anchored(name), text) else name == text
  }

  predicate VulnerabilityApplies(id: string, includeAliases: bool, m: Match) {
    || id == m.vulnerability.id
    || (includeAliases && exists r :: r in m.vulnerability.related && r.id == id)
  }

  predicate FixStateApplies(state: string, m: Match) {
    (state == "unknown" && m.vulnerability.fixState == "") || state == m.vulnerability.fixState
  }

  predicate LocationApplies(e: Engines, location: string, m: Match) {
    exists l :: l in m.pkg.locations && (e.glob(location, l.realPath) || e.glob(location, l.accessPath))
  }

  predicate UpstreamApplies(e: Engines, name: string, m: Match) {
    exists u :: u in m.pkg.upstreams && NameApplies(e, name, u)
  }

  predicate MatchTypeApplies(ty: MatchType, m: Match) {
    exists d :: d in m.details && d.ty == ty
  }

  predicate HasCriteria(r: Rule) {
    || r.vulnerability != "" || r.namespace != "" || r.pkg.name != "" || r.pkg.version != ""
    || r.pkg.language != "" || r.pkg.ty != "" || r.pkg.location != "" || r.fixState != ""
    || r.pkg.upstreamName != "" || r.matchType.Some?
  }

  /** Every specified criterion of the rule holds for the match. */
  predicate CriteriaHold(e: Engines, r: Rule, m: Match) {
    && (r.vulnerability != "" ==> VulnerabilityApplies(r.vulnerability, r.includeAliases, m))
    && (r.namespace != "" ==> r.namespace == m.vulnerability.namespace)
    && (r.pkg.name != "" ==> NameApplies(e, r.pkg.name, m.pkg.name))
    && (r.pkg.version != "" ==> r.pkg.version == m.pkg.version)
    && (r.pkg.language != "" ==> r.pkg.language == m.pkg.language)
    && (r.pkg.ty != "" ==> r.pkg.ty == m.pkg.ty)
    && (r.pkg.location != "" ==> LocationApplies(e, r.pkg.location, m))
    && (r.fixState != "" ==> FixStateApplies(r.fixState, m))
    && (r.pkg.upstreamName != "" ==> UpstreamApplies(e, r.pkg.upstreamName, m))
    && (r.matchType.Some? ==> MatchTypeApplies(r.matchType.value, m))
  }

  predicate RuleApplies(e: Engines, r: Rule, m: Match) {
    r.vexStatus == "" && HasCriteria(r) && CriteriaHold(e, r, m)
  }

  predicate Applies(e: Engines, f: Filter, m: Match) {
    match f
    case ByRule(rule) => RuleApplies(e, rule, m)
    case ByRelatedPackage(_, relationship, id, related) =>
      && VulnerabilityApplies(id, true, m)
      && relationship in m.pkg.relatedPackages
      && related in m.pkg.relatedPackages[relationship]
  }

  /** A name with none of the regular-expression characters is compared, any other is matched anchored. */
  lemma NameMeans(e: Engines, name: string, text: string)
    ensures (forall c :: c in name ==> c !in ['^', '$', '*', '+', '?', '[', ']', '(', ')', '{', '}', '|', '\\']) ==>
              (NameApplies(e, name, text) <==> name == text)
    ensures (exists c :: c in name && c in ['^', '$', '*', '+', '?', '[', ']', '(', ')', '{', '}', '|', '\\']) ==>
              (NameApplies(e, name, text) <==>
                 e.regex(if name[0] == '$' && name[|name| - 1] == '^' then name else "^" + name + "$", text))
  {
    if c :| c in name && c in ['^', '$', '*', '+', '?', '[', ']', '(', ')', '{', '}', '|', '\\'] {
      var i :| 0 <= i < |name| && name[i] == c;
      assert name[i] in REGEX_CHARACTERS;
    } else {
      assert forall i :: 0 <= i < |name| ==> name[i] in name;
    }
  }

  /** When a rule applies, criterion by criterion, in the terms of the match. */
  lemma RuleMeans(e: Engines, r: Rule, m: Match)
    ensures RuleApplies(e, r, m) <==>
            && r.vexStatus == "" && HasCriteria(r)
            && (r.vulnerability == "" || r.vulnerability == m.vulnerability.id
                || (r.includeAliases && exists x :: x in m.vulnerability.related && x.id == r.vulnerability))
            && r.namespace in ["", m.vulnerability.namespace]
            && (r.pkg.name == "" || NameApplies(e, r.pkg.name, m.pkg.name))
            && r.pkg.version in ["", m.pkg.version]
            && r.pkg.language in ["", m.pkg.language]
            && r.pkg.ty in ["", m.pkg.ty]
            && (r.pkg.location == ""
                || exists l :: l in m.pkg.locations && (e.glob(r.pkg.location, l.realPath) || e.glob(r.pkg.location, l.accessPath)))
            && (r.fixState in ["", m.vulnerability.fixState] || (r.fixState == "unknown" && m.vulnerability.fixState == ""))
            && (r.pkg.upstreamName == "" || exists u :: u in m.pkg.upstreams && NameApplies(e, r.pkg.upstreamName, u))
            && (r.matchType.None? || exists d :: d in m.details && d.ty == r.matchType.value)
    ensures !HasCriteria(r) <==>
            NO_RULE.(reason := r.reason, includeAliases := r.includeAliases, vexStatus := r.vexStatus,
                     vexJustification := r.vexJustification) == r
  {
  }

  /** A rule for a related package applies to the vulnerability, or an alias of it, and to an owner of that id. */
  lemma RelationMeans(e: Engines, reason: string, relationship: string, id: string, related: string, m: Match)
    ensures Applies(e, ByRelatedPackage(reason, relationship, id, related), m) <==>
            && (id == m.vulnerability.id || exists x :: x in m.vulnerability.related && x.id == id)
            && relationship in m.pkg.relatedPackages && related in m.pkg.relatedPackages[relationship]
  {
  }

  /** The rules that one filter returns for a match: none when it does not apply. */
  function Answer(e: Engines, f: Filter, m: Match): (rules: seq<Rule>) {
    if !Applies(e, f, m) then []
    else match f
      case ByRule(rule) => [rule]
      case ByRelatedPackage(reason, _, id, _) =>
        [NO_RULE.(vulnerability := id, includeAliases := true, reason := reason)]
  }

  /** What a filter that applies returns: the rule itself, or a rule made up for the relation. */
  lemma AnswerIs(e: Engines, f: Filter, m: Match)
    requires Applies(e, f, m)
    ensures f.ByRule? ==> Answer(e, f, m) == [f.rule]
    ensures f.ByRelatedPackage? ==>
              Answer(e, f, m) == [Rule(f.vulnerabilityID, true, f.reason, "", "", RulePackage("", "", "", "", "", ""),
                                       "", "", None)]
  {
  }

  // ----- how a rule is evaluated

  /** The closures that getIgnoreConditionsForRule makes, one for each specified field. */
  datatype Condition =
    | OnVulnerability(id: string, includeAliases: bool)
    | OnNamespace(namespace: string)
    | OnName(name: string)
    | OnVersion(version: string)
    | OnLanguage(language: string)
    | OnType(ty: string)
    | OnLocation(location: string)
    | OnFixState(state: string)
    | OnUpstream(upstream: string)
    | OnMatchType(matchType: MatchType)

  predicate ConditionHolds(e: Engines, c: Condition, m: Match) {
    match c
    case OnVulnerability(id, includeAliases) => VulnerabilityApplies(id, includeAliases, m)
    case OnNamespace(namespace) => namespace == m.vulnerability.namespace
    case OnName(name) => NameApplies(e, name, m.pkg.name)
    case OnVersion(version) => version == m.pkg.version
    case OnLanguage(language) => language == m.pkg.language
    case OnType(ty) => ty == m.pkg.ty
    case OnLocation(location) => LocationApplies(e, location, m)
    case OnFixState(state) => FixStateApplies(state, m)
    case OnUpstream(upstream) => UpstreamApplies(e, upstream, m)
    case OnMatchType(ty) => MatchTypeApplies(ty, m)
  }

  ghost predicate AllHold(holds: Condition -> bool, conditions: seq<Condition>) {
    forall i :: 0 <= i < |conditions| ==> holds(conditions[i])
  }

  function HoldsOn(e: Engines, m: Match): (holds: Condition -> bool) {
    c => ConditionHolds(e, c, m)
  }

  /** Append a condition if its field is specified. */
  function If(conditions: seq<Condition>, specified: bool, c: Condition): (r: seq<Condition>) {
    if specified then conditions + [c] else conditions
  }

  lemma IfHolds(holds: Condition -> bool, conditions: seq<Condition>, specified: bool, c: Condition)
    ensures AllHold(holds, If(conditions, specified, c)) <==> AllHold(holds, conditions) && (specified ==> holds(c))
    ensures If(conditions, specified, c) == [] <==> conditions == [] && !specified
  {
    if specified {
      var r := conditions + [c];
      assert r[|conditions|] == c && forall i :: 0 <= i < |conditions| ==> r[i] == conditions[i];
    }
  }

  /** The conditions on the package, after those on the vulnerability. */
  method AddPackageConditions(conditions: seq<Condition>, p: RulePackage) returns (r: seq<Condition>)
    ensures forall holds :: AllHold(holds, r) <==> AllHold(holds, conditions) && PackageHolds(holds, p)
    ensures r == [] <==> conditions == [] && p.name == p.version == p.language == p.ty == p.location == ""
  {
    var a := If(conditions, p.name != "", OnName(p.name));
    var b := If(a, p.version != "", OnVersion(p.version));
    var c := If(b, p.language != "", OnLanguage(p.language));
    var d := If(c, p.ty != "", OnType(p.ty));
    r := If(d, p.location != "", OnLocation(p.location));
    forall holds ensures AllHold(holds, r) <==> AllHold(holds, conditions) && PackageHolds(holds, p) {
      IfHolds(holds, conditions, p.name != "", OnName(p.name));
      IfHolds(holds, a, p.version != "", OnVersion(p.version));
      IfHolds(holds, b, p.language != "", OnLanguage(p.language));
      IfHolds(holds, c, p.ty != "", OnType(p.ty));
      IfHolds(holds, d, p.location != "", OnLocation(p.location));
    }
  }

  predicate PackageHolds(holds: Condition -> bool, p: RulePackage) {
    && (p.name != "" ==> holds(OnName(p.name)))
    && (p.version != "" ==> holds(OnVersion(p.version)))
    && (p.language != "" ==> holds(OnLanguage(p.language)))
    && (p.ty != "" ==> holds(OnType(p.ty)))
    && (p.location != "" ==> holds(OnLocation(p.location)))
  }

  predicate FindingHolds(holds: Condition -> bool, r: Rule) {
    && (r.vulnerability != "" ==> holds(OnVulnerability(r.vulnerability, r.includeAliases)))
    && (r.namespace != "" ==> holds(OnNamespace(r.namespace)))
  }

  predicate RestHolds(holds: Condition -> bool, r: Rule) {
    && (r.fixState != "" ==> holds(OnFixState(r.fixState)))
    && (r.pkg.upstreamName != "" ==> holds(OnUpstream(r.pkg.upstreamName)))
    && (r.matchType.Some? ==> holds(OnMatchType(r.matchType.value)))
  }

  method AddFindingConditions(r: Rule) returns (conditions: seq<Condition>)
    ensures forall holds :: AllHold(holds, conditions) <==> FindingHolds(holds, r)
    ensures conditions == [] <==> r.vulnerability == r.namespace == ""
  {
    var a := If([], r.vulnerability != "", OnVulnerability(r.vulnerability, r.includeAliases));
    conditions := If(a, r.namespace != "", OnNamespace(r.namespace));
    forall holds ensures AllHold(holds, conditions) <==> FindingHolds(holds, r) {
      IfHolds(holds, [], r.vulnerability != "", OnVulnerability(r.vulnerability, r.includeAliases));
      IfHolds(holds, a, r.namespace != "", OnNamespace(r.namespace));
    }
  }

  method AddRemainingConditions(conditions: seq<Condition>, r: Rule) returns (all: seq<Condition>)
    ensures forall holds :: AllHold(holds, all) <==> AllHold(holds, conditions) && RestHolds(holds, r)
    ensures all == [] <==> conditions == [] && r.fixState == r.pkg.upstreamName == "" && r.matchType.None?
  {
    var a := If(conditions, r.fixState != "", OnFixState(r.fixState));
    var b := If(a, r.pkg.upstreamName != "", OnUpstream(r.pkg.upstreamName));
    var ty := if r.matchType.Some? then r.matchType.value else Cpe;
    all := If(b, r.matchType.Some?, OnMatchType(ty));
    forall holds ensures AllHold(holds, all) <==> AllHold(holds, conditions) && RestHolds(holds, r) {
      IfHolds(holds, conditions, r.fixState != "", OnFixState(r.fixState));
      IfHolds(holds, a, r.pkg.upstreamName != "", OnUpstream(r.pkg.upstreamName));
      IfHolds(holds, b, r.matchType.Some?, OnMatchType(ty));
    }
  }

  /** getIgnoreConditionsForRule: none for a rule without criteria; all hold exactly when the criteria do. */
  method GetIgnoreConditions(ghost e: Engines, r: Rule) returns (conditions: seq<Condition>)
    ensures conditions == [] <==> !HasCriteria(r)
    ensures forall m :: AllHold(HoldsOn(e, m), conditions) <==> CriteriaHold(e, r, m)
  {
    var finding := AddFindingConditions(r);
    var package := AddPackageConditions(finding, r.pkg);
    conditions := AddRemainingConditions(package, r);
    forall m ensures AllHold(HoldsOn(e, m), conditions) <==> CriteriaHold(e, r, m) {
      var holds := HoldsOn(e, m);
      assert AllHold(holds, conditions) <==> FindingHolds(holds, r) && PackageHolds(holds, r.pkg) && RestHolds(holds, r);
      CriteriaParts(e, r, m);
    }
  }

  lemma CriteriaParts(e: Engines, r: Rule, m: Match)
    ensures var holds := HoldsOn(e, m);
            FindingHolds(holds, r) && PackageHolds(holds, r.pkg) && RestHolds(holds, r) <==> CriteriaHold(e, r, m)
  {
  }

  /** IgnoreRule.IgnoreMatch: the rule itself, as soon as no condition fails. */
  method IgnoreMatchByRule(e: Engines, r: Rule, m: Match) returns (rules: seq<Rule>)
    ensures rules == if RuleApplies(e, r, m) then [r] else []
  {
    if r.vexStatus != "" { return []; }
    var conditions := GetIgnoreConditions(e, r);
    assert AllHold(HoldsOn(e, m), conditions) <==> CriteriaHold(e, r, m);
    if |conditions| == 0 { return []; }
    var i := 0;
    while i < |conditions|
      invariant 0 <= i <= |conditions|
      invariant forall j :: 0 <= j < i ==> ConditionHolds(e, conditions[j], m)
    {
      if !ConditionHolds(e, conditions[i], m) {
        assert !HoldsOn(e, m)(conditions[i]);
        return [];
      }
      i := i + 1;
    }
    return [r];
  }

  /** IgnoreRelatedPackage.IgnoreMatch. */
  method IgnoreMatchByRelation(e: Engines, f: Filter, m: Match) returns (rules: seq<Rule>)
    requires f.ByRelatedPackage?
    ensures rules == Answer(e, f, m)
  {
    if m.vulnerability.id != f.vulnerabilityID {
      var i := 0;
      while i < |m.vulnerability.related| && m.vulnerability.related[i].id != f.vulnerabilityID
        invariant 0 <= i <= |m.vulnerability.related|
        invariant forall j :: 0 <= j < i ==> m.vulnerability.related[j].id != f.vulnerabilityID
      {
        i := i + 1;
      }
      if i == |m.vulnerability.related| { return []; }
      assert m.vulnerability.related[i] in m.vulnerability.related;
    }
    if f.relationship !in m.pkg.relatedPackages { return []; }
    var owners := m.pkg.relatedPackages[f.relationship];
    var k := 0;
    while k < |owners| && owners[k] != f.relatedPackageID
      invariant 0 <= k <= |owners| && f.relatedPackageID !in owners[..k]
    {
      k := k + 1;
    }
    if k == |owners| {
      assert owners[..k] == owners;
      return [];
    }
    return [NO_RULE.(vulnerability := f.vulnerabilityID, includeAliases := true, reason := f.reason)];
  }

  /** IgnoreMatch of a filter of either kind. */
  method IgnoreMatch(e: Engines, f: Filter, m: Match) returns (rules: seq<Rule>)
    ensures rules == Answer(e, f, m)
  {
    match f
    case ByRule(rule) => rules := IgnoreMatchByRule(e, rule, m);
    case ByRelatedPackage(_, _, _, _) => rules := IgnoreMatchByRelation(e, f, m);
  }

  // ----- the index

  /** Where the index files a filter. */
  datatype Slot = AtLocation(path: string) | AtName(name: string) | AtVulnerability(id: string) | Remaining

  function SlotOf(f: Filter): (s: Slot) {
    match f
    case ByRule(rule) =>
      if rule.pkg.location != "" && '*' !in rule.pkg.location then AtLocation(rule.pkg.location)
      else if rule.pkg.name != "" then AtName(rule.pkg.name)
      else if rule.vulnerability != "" && rule.includeAliases then AtVulnerability(rule.vulnerability)
      else Remaining
    case ByRelatedPackage(_, _, id, _) =>
      if id != "" then AtVulnerability(id) else Remaining
  }

  /** The filters of one slot, in their original order. */
  function Filed(filters: seq<Filter>, slot: Slot): (r: seq<Filter>) {
    if filters == [] then []
    else
      var last := filters[|filters| - 1];
      Filed(filters[..|filters| - 1], slot) + (if SlotOf(last) == slot then [last] else [])
  }

  lemma {:induction false} FiledMembers(filters: seq<Filter>, slot: Slot, f: Filter)
    ensures f in Filed(filters, slot) <==> f in filters && SlotOf(f) == slot
  {
    if filters != [] {
      var front, last := filters[..|filters| - 1], filters[|filters| - 1];
      assert filters == front + [last];
      FiledMembers(front, slot, f);
    }
  }

  datatype Index = Index(
    remaining: seq<Filter>,
    byLocation: map<string, seq<Filter>>,
    byName: map<string, seq<Filter>>,
    byVulnerability: map<string, seq<Filter>>
  )

  /** Looking up a key that a Go map does not hold yields no filters. */
  function Lookup(index: map<string, seq<Filter>>, k: string): (r: seq<Filter>) {
    if k in index then index[k] else []
  }

  function Contents(index: Index, slot: Slot): (r: seq<Filter>) {
    match slot
    case AtLocation(k) => Lookup(index.byLocation, k)
    case AtName(k) => Lookup(index.byName, k)
    case AtVulnerability(k) => Lookup(index.byVulnerability, k)
    case Remaining => index.remaining
  }

  /** Every slot holds exactly the filters that belong there, in their original order. */
  ghost predicate IsIndex(index: Index, filters: seq<Filter>) {
    forall slot :: Contents(index, slot) == Filed(filters, slot)
  }

  function Append(index: map<string, seq<Filter>>, k: string, f: Filter): (r: map<string, seq<Filter>>) {
    index[k := Lookup(index, k) + [f]]
  }

  function FileFilter(index: Index, f: Filter): (r: Index) {
    match SlotOf(f)
    case AtLocation(k) => index.(byLocation := Append(index.byLocation, k, f))
    case AtName(k) => index.(byName := Append(index.byName, k, f))
    case AtVulnerability(k) => index.(byVulnerability := Append(index.byVulnerability, k, f))
    case Remaining => index.(remaining := index.remaining + [f])
  }

  lemma FiledNext(filters: seq<Filter>, f: Filter, slot: Slot)
    ensures Filed(filters + [f], slot) == Filed(filters, slot) + (if SlotOf(f) == slot then [f] else [])
  {
    assert (filters + [f])[..|filters|] == filters;
  }

  lemma FilingAppends(index: Index, f: Filter, slot: Slot)
    ensures Contents(FileFilter(index, f), slot) == Contents(index, slot) + (if SlotOf(f) == slot then [f] else [])
  {
    assert Contents(index, slot) + [] == Contents(index, slot);
    match SlotOf(f)
    case AtLocation(_) =>
    case AtName(_) =>
    case AtVulnerability(_) =>
    case Remaining =>
  }

  lemma FilingKeepsIndex(index: Index, filters: seq<Filter>, f: Filter)
    requires IsIndex(index, filters)
    ensures IsIndex(FileFilter(index, f), filters + [f])
  {
    forall slot ensures Contents(FileFilter(index, f), slot) == Filed(filters + [f], slot) {
      FiledNext(filters, f, slot);
      FilingAppends(index, f, slot);
      assert Contents(index, slot) == Filed(filters, slot);
    }
  }

  /** ignoredMatchFilter: files every filter in exactly one slot, in order. */
  method IgnoredMatchFilter(ignores: seq<Filter>) returns (out: Index)
    ensures IsIndex(out, ignores)
  {
    out := Index([], map[], map[], map[]);
    var i := 0;
    while i < |ignores|
      invariant 0 <= i <= |ignores|
      invariant IsIndex(out, ignores[..i])
    {
      FilingKeepsIndex(out, ignores[..i], ignores[i]);
      assert ignores[..i + 1] == ignores[..i] + [ignores[i]];
      out := FileFilter(out, ignores[i]);
      i := i + 1;
    }
    assert ignores[..i] == ignores;
  }

  // ----- looking a match up

  /** matchIndexed: the answer of the first filter that applies. */
  function FirstAnswer(e: Engines, filters: seq<Filter>, m: Match): (rules: seq<Rule>)
    ensures rules != [] <==> exists f :: f in filters && Applies(e, f, m)
  {
    if filters == [] then []
    else if Answer(e, filters[0], m) != [] then
      assert filters[0] in filters;
      Answer(e, filters[0], m)
    else FirstAnswer(e, filters[1..], m)
  }

  /** The filters the index consults for a match, in the order it consults them. */
  function Consulted(index: Index, m: Match): (filters: seq<Filter>) {
    Lookup(index.byVulnerability, m.vulnerability.id)
    + ConsultedByAlias(index, m.vulnerability.related)
    + Lookup(index.byName, m.pkg.name)
    + ConsultedByLocation(index, m.pkg.locations)
    + index.remaining
  }

  function ConsultedByAlias(index: Index, related: seq<Reference>): (filters: seq<Filter>) {
    if related == [] then []
    else Lookup(index.byVulnerability, related[0].id) + ConsultedByAlias(index, related[1..])
  }

  function ConsultedByLocation(index: Index, locations: seq<Location>): (filters: seq<Filter>) {
    if locations == [] then []
    else Lookup(index.byLocation, locations[0].realPath) + ConsultedByLocation(index, locations[1..])
  }

  lemma {:induction false} FirstAnswerConcat(e: Engines, a: seq<Filter>, b: seq<Filter>, m: Match)
    ensures FirstAnswer(e, a + b, m) ==
            if FirstAnswer(e, a, m) != [] then FirstAnswer(e, a, m) else FirstAnswer(e, b, m)
  {
    if a == [] {
      assert a + b == b;
    } else {
      assert (a + b)[1..] == a[1..] + b;
      FirstAnswerConcat(e, a[1..], b, m);
    }
  }

  method MatchIndexed(e: Engines, m: Match, filters: seq<Filter>) returns (rules: seq<Rule>)
    ensures rules == FirstAnswer(e, filters, m)
  {
    var i := 0;
    while i < |filters|
      invariant 0 <= i <= |filters|
      invariant FirstAnswer(e, filters, m) == FirstAnswer(e, filters[i..], m)
    {
      rules := IgnoreMatch(e, filters[i], m);
      if rules != [] { return; }
      assert filters[i..][1..] == filters[i + 1..];
      i := i + 1;
    }
    return [];
  }

  method MatchByAlias(e: Engines, index: Index, m: Match, related: seq<Reference>) returns (rules: seq<Rule>)
    ensures rules == FirstAnswer(e, ConsultedByAlias(index, related), m)
  {
    var i := 0;
    while i < |related|
      invariant 0 <= i <= |related|
      invariant FirstAnswer(e, ConsultedByAlias(index, related), m) ==
                FirstAnswer(e, ConsultedByAlias(index, related[i..]), m)
    {
      var here := Lookup(index.byVulnerability, related[i].id);
      assert related[i..][1..] == related[i + 1..];
      FirstAnswerConcat(e, here, ConsultedByAlias(index, related[i + 1..]), m);
      rules := MatchIndexed(e, m, here);
      if rules != [] { return; }
      i := i + 1;
    }
    return [];
  }

  method MatchByLocation(e: Engines, index: Index, m: Match, locations: seq<Location>) returns (rules: seq<Rule>)
    ensures rules == FirstAnswer(e, ConsultedByLocation(index, locations), m)
  {
    var i := 0;
    while i < |locations|
      invariant 0 <= i <= |locations|
      invariant FirstAnswer(e, ConsultedByLocation(index, locations), m) ==
                FirstAnswer(e, ConsultedByLocation(index, locations[i..]), m)
    {
      var here := Lookup(index.byLocation, locations[i].realPath);
      assert locations[i..][1..] == locations[i + 1..];
      FirstAnswerConcat(e, here, ConsultedByLocation(index, locations[i + 1..]), m);
      rules := MatchIndexed(e, m, here);
      if rules != [] { return; }
      i := i + 1;
    }
    return [];
  }

  /** ignoreRulesByIndex.IgnoreMatch: the first answer among the consulted filters. */
  method IgnoreMatchByIndex(e: Engines, index: Index, m: Match) returns (rules: seq<Rule>)
    ensures rules == FirstAnswer(e, Consulted(index, m), m)
  {
    var a, b := Lookup(index.byVulnerability, m.vulnerability.id), ConsultedByAlias(index, m.vulnerability.related);
    var c, d := Lookup(index.byName, m.pkg.name), ConsultedByLocation(index, m.pkg.locations);
    FirstAnswerConcat(e, a + b + c + d, index.remaining, m);
    FirstAnswerConcat(e, a + b + c, d, m);
    FirstAnswerConcat(e, a + b, c, m);
    FirstAnswerConcat(e, a, b, m);
    rules := MatchIndexed(e, m, a);
    if rules != [] { return; }
    rules := MatchByAlias(e, index, m, m.vulnerability.related);
    if rules != [] { return; }
    rules := MatchIndexed(e, m, c);
    if rules != [] { return; }
    rules := MatchByLocation(e, index, m, m.pkg.locations);
    if rules != [] { return; }
    rules := MatchIndexed(e, m, index.remaining);
  }

  /** The answer is that of the first filter that applies. */
  lemma {:induction false} FirstAnswerIsFirst(e: Engines, filters: seq<Filter>, m: Match) returns (i: nat)
    requires FirstAnswer(e, filters, m) != []
    ensures i < |filters| && Applies(e, filters[i], m) && FirstAnswer(e, filters, m) == Answer(e, filters[i], m)
    ensures forall j :: 0 <= j < i ==> !Applies(e, filters[j], m)
    decreases |filters|
  {
    if Answer(e, filters[0], m) != [] {
      i := 0;
    } else {
      var k := FirstAnswerIsFirst(e, filters[1..], m);
      i := k + 1;
      forall j | 0 <= j < i ensures !Applies(e, filters[j], m) {
        if j > 0 { assert filters[j] == filters[1..][j - 1]; }
      }
    }
  }

  /** The filters filed under the given slots, slot by slot. */
  function FiledUnder(filters: seq<Filter>, slots: seq<Slot>): (r: seq<Filter>) {
    if slots == [] then [] else Filed(filters, slots[0]) + FiledUnder(filters, slots[1..])
  }

  lemma {:induction false} FiledUnderConcat(filters: seq<Filter>, a: seq<Slot>, b: seq<Slot>)
    ensures FiledUnder(filters, a + b) == FiledUnder(filters, a) + FiledUnder(filters, b)
  {
    if a == [] {
      assert a + b == b;
    } else {
      assert (a + b)[1..] == a[1..] + b;
      FiledUnderConcat(filters, a[1..], b);
    }
  }

  function AliasSlots(related: seq<Reference>): (slots: seq<Slot>) {
    seq(|related|, i requires 0 <= i < |related| => AtVulnerability(related[i].id))
  }

  function PathSlots(locations: seq<Location>): (slots: seq<Slot>) {
    seq(|locations|, i requires 0 <= i < |locations| => AtLocation(locations[i].realPath))
  }

  lemma {:induction false} AliasesInOrder(index: Index, filters: seq<Filter>, related: seq<Reference>)
    requires IsIndex(index, filters)
    ensures ConsultedByAlias(index, related) == FiledUnder(filters, AliasSlots(related))
  {
    if related != [] {
      AliasesInOrder(index, filters, related[1..]);
      assert AliasSlots(related)[1..] == AliasSlots(related[1..]);
      assert Contents(index, AtVulnerability(related[0].id)) == Filed(filters, AtVulnerability(related[0].id));
    }
  }

  lemma {:induction false} PathsInOrder(index: Index, filters: seq<Filter>, locations: seq<Location>)
    requires IsIndex(index, filters)
    ensures ConsultedByLocation(index, locations) == FiledUnder(filters, PathSlots(locations))
  {
    if locations != [] {
      PathsInOrder(index, filters, locations[1..]);
      assert PathSlots(locations)[1..] == PathSlots(locations[1..]);
      assert Contents(index, AtLocation(locations[0].realPath)) == Filed(filters, AtLocation(locations[0].realPath));
    }
  }

  lemma OneSlot(index: Index, filters: seq<Filter>, slot: Slot)
    requires IsIndex(index, filters)
    ensures FiledUnder(filters, [slot]) == Contents(index, slot)
  {
    assert [slot][1..] == [];
    assert Contents(index, slot) == Filed(filters, slot);
  }

  /** The slots that a match is looked up with, in order. */
  function SlotsFor(m: Match): (slots: seq<Slot>) {
    [AtVulnerability(m.vulnerability.id)] + AliasSlots(m.vulnerability.related) + [AtName(m.pkg.name)]
    + PathSlots(m.pkg.locations) + [Remaining]
  }

  /**
   The index consults the filters filed under the vulnerability's own id first, then those under its
   aliases, its package name and its real paths, and the remaining ones last.
   */
  lemma IndexOrder(index: Index, filters: seq<Filter>, m: Match)
    requires IsIndex(index, filters)
    ensures Consulted(index, m) == FiledUnder(filters, SlotsFor(m))
  {
    var own, aliases := [AtVulnerability(m.vulnerability.id)], AliasSlots(m.vulnerability.related);
    var name, paths := [AtName(m.pkg.name)], PathSlots(m.pkg.locations);
    OneSlot(index, filters, own[0]);
    OneSlot(index, filters, name[0]);
    OneSlot(index, filters, Remaining);
    AliasesInOrder(index, filters, m.vulnerability.related);
    PathsInOrder(index, filters, m.pkg.locations);
    FiledUnderConcat(filters, own + aliases + name + paths, [Remaining]);
    FiledUnderConcat(filters, own + aliases + name, paths);
    FiledUnderConcat(filters, own + aliases, name);
    FiledUnderConcat(filters, own, aliases);
  }

  // ----- the index against the linear scan

  /** The key under which a filter is filed is one that the match is looked up with. */
  predicate Reachable(f: Filter, m: Match) {
    match SlotOf(f)
    case AtLocation(path) => exists l :: l in m.pkg.locations && l.realPath == path
    case AtName(name) => name == m.pkg.name
    case AtVulnerability(id) => VulnerabilityApplies(id, true, m)
    case Remaining => true
  }

  lemma {:induction false} AliasMembers(index: Index, related: seq<Reference>, f: Filter)
    ensures f in ConsultedByAlias(index, related) <==>
            exists r :: r in related && f in Lookup(index.byVulnerability, r.id)
  {
    if related != [] {
      AliasMembers(index, related[1..], f);
      assert related == [related[0]] + related[1..];
    }
  }

  lemma {:induction false} LocationMembers(index: Index, locations: seq<Location>, f: Filter)
    ensures f in ConsultedByLocation(index, locations) <==>
            exists l :: l in locations && f in Lookup(index.byLocation, l.realPath)
  {
    if locations != [] {
      LocationMembers(index, locations[1..], f);
      assert locations == [locations[0]] + locations[1..];
    }
  }

  lemma SlotMembers(index: Index, filters: seq<Filter>, slot: Slot, f: Filter)
    requires IsIndex(index, filters)
    ensures f in Contents(index, slot) <==> f in filters && SlotOf(f) == slot
  {
    FiledMembers(filters, slot, f);
  }

  lemma ConsultedMembers(index: Index, filters: seq<Filter>, m: Match, f: Filter)
    requires IsIndex(index, filters)
    ensures f in Consulted(index, m) <==> f in filters && Reachable(f, m)
  {
    AliasMembers(index, m.vulnerability.related, f);
    LocationMembers(index, m.pkg.locations, f);
    SlotMembers(index, filters, Remaining, f);
    SlotMembers(index, filters, AtName(m.pkg.name), f);
    SlotMembers(index, filters, AtVulnerability(m.vulnerability.id), f);
    forall r: Reference ensures f in Lookup(index.byVulnerability, r.id) <==> f in filters && SlotOf(f) == AtVulnerability(r.id) {
      SlotMembers(index, filters, AtVulnerability(r.id), f);
    }
    forall l: Location ensures f in Lookup(index.byLocation, l.realPath) <==> f in filters && SlotOf(f) == AtLocation(l.realPath) {
      SlotMembers(index, filters, AtLocation(l.realPath), f);
    }
  }

  ghost predicate LinearIgnores(e: Engines, filters: seq<Filter>, m: Match) {
    exists f :: f in filters && Applies(e, f, m)
  }

  ghost predicate IndexIgnores(e: Engines, index: Index, m: Match) {
    FirstAnswer(e, Consulted(index, m), m) != []
  }

  /** The index ignores a match exactly when a reachable filter applies; so some filter applies. */
  lemma IndexExactly(e: Engines, index: Index, filters: seq<Filter>, m: Match)
    requires IsIndex(index, filters)
    ensures IndexIgnores(e, index, m) <==> exists f :: f in filters && Applies(e, f, m) && Reachable(f, m)
    ensures IndexIgnores(e, index, m) ==> LinearIgnores(e, filters, m)
  {
    if IndexIgnores(e, index, m) {
      var f :| f in Consulted(index, m) && Applies(e, f, m);
      ConsultedMembers(index, filters, m, f);
    }
    if f :| f in filters && Applies(e, f, m) && Reachable(f, m) {
      ConsultedMembers(index, filters, m, f);
    }
  }

  /** An applicable filter is missed exactly for a regular-expression name or an unlisted location. */
  lemma MissedExactly(e: Engines, f: Filter, m: Match)
    requires Applies(e, f, m)
    ensures !Reachable(f, m) <==>
            || (SlotOf(f).AtName? && IsLikelyARegex(SlotOf(f).name) && SlotOf(f).name != m.pkg.name)
            || (SlotOf(f).AtLocation? && forall l :: l in m.pkg.locations ==> l.realPath != SlotOf(f).path)
    ensures f.ByRelatedPackage? ==> Reachable(f, m)
    ensures f.ByRule? ==>
              var p := f.rule.pkg;
              var byLocation := p.location != "" && '*' !in p.location;
              !Reachable(f, m) <==>
              || (byLocation && forall l :: l in m.pkg.locations ==> l.realPath != p.location)
              || (!byLocation && p.name != "" && IsLikelyARegex(p.name) && p.name != m.pkg.name)
  {
  }

  /** The pattern matches no path but itself. */
  ghost predicate LiteralPattern(e: Engines, pattern: string) {
    forall path :: e.glob(pattern, path) ==> path == pattern
  }

  /** What the index relies on: literal names, literal locations. */
  ghost predicate Indexable(e: Engines, f: Filter) {
    match SlotOf(f)
    case AtLocation(path) => LiteralPattern(e, path)
    case AtName(name) => !IsLikelyARegex(name)
    case _ => true
  }

  predicate SamePaths(m: Match) {
    forall l :: l in m.pkg.locations ==> l.accessPath == l.realPath
  }

  lemma IndexableIsReachable(e: Engines, f: Filter, m: Match)
    requires Applies(e, f, m) && Indexable(e, f) && SamePaths(m)
    ensures Reachable(f, m)
  {
    if SlotOf(f).AtLocation? {
      var path := SlotOf(f).path;
      var l :| l in m.pkg.locations && (e.glob(path, l.realPath) || e.glob(path, l.accessPath));
      assert l.realPath == path;
    }
  }

  /** With literal names and locations and equal paths, the index and the scan agree. */
  lemma IndexAgrees(e: Engines, index: Index, filters: seq<Filter>, m: Match)
    requires IsIndex(index, filters)
    requires forall f :: f in filters ==> Indexable(e, f)
    requires SamePaths(m)
    ensures IndexIgnores(e, index, m) <==> LinearIgnores(e, filters, m)
  {
    IndexExactly(e, index, filters, m);
    if LinearIgnores(e, filters, m) {
      var f :| f in filters && Applies(e, f, m);
      IndexableIsReachable(e, f, m);
    }
  }

  // ----- where they disagree

  function Named(name: string): (m: Match) {
    ZERO_MATCH.(pkg := NO_PACKAGE.(name := name))
  }

  /** A rule named by a regular expression applies to "a" but the index looks up only the name "a". */
  lemma RegexNameIsMissed(e: Engines, index: Index)
    requires e.regex("^a+$", "a")
    requires IsIndex(index, [ByRule(NO_RULE.(pkg := NO_RULE.pkg.(name := "a+")))])
    ensures LinearIgnores(e, [ByRule(NO_RULE.(pkg := NO_RULE.pkg.(name := "a+")))], Named("a"))
    ensures !IndexIgnores(e, index, Named("a"))
  {
    var f := ByRule(NO_RULE.(pkg := NO_RULE.pkg.(name := "a+")));
    assert "a+"[1] in REGEX_CHARACTERS;
    assert "^" + "a+" + "$" == "^a+$";
    assert f in [f];
    IndexExactly(e, index, [f], Named("a"));
  }

  /** A rule whose location is only an access path of the package is missed too. */
  lemma AccessPathIsMissed(e: Engines, index: Index)
    requires e.glob("/a", "/a")
    requires IsIndex(index, [ByRule(NO_RULE.(pkg := NO_RULE.pkg.(location := "/a")))])
    ensures var m := ZERO_MATCH.(pkg := NO_PACKAGE.(locations := [Location("/b", "/a")]));
            LinearIgnores(e, [ByRule(NO_RULE.(pkg := NO_RULE.pkg.(location := "/a")))], m)
            && !IndexIgnores(e, index, m)
  {
    var f := ByRule(NO_RULE.(pkg := NO_RULE.pkg.(location := "/a")));
    var m := ZERO_MATCH.(pkg := NO_PACKAGE.(locations := [Location("/b", "/a")]));
    assert m.pkg.locations[0] in m.pkg.locations;
    assert f in [f];
    IndexExactly(e, index, [f], m);
  }

  // ----- partitioning the matches

  datatype IgnoredMatch = IgnoredMatch(m: Match, rules: seq<Rule>)

  /** All rules that the given filters return for a match. */
  function AllRules(filters: seq<Match -> seq<Rule>>, m: Match): (rules: seq<Rule>) {
    if filters == [] then [] else AllRules(filters[..|filters| - 1], m) + filters[|filters| - 1](m)
  }

  function KeptMatches(filters: seq<Match -> seq<Rule>>, matches: seq<Match>): (r: seq<Match>) {
    if matches == [] then []
    else
      var last := matches[|matches| - 1];
      KeptMatches(filters, matches[..|matches| - 1]) + (if AllRules(filters, last) == [] then [last] else [])
  }

  function DroppedMatches(filters: seq<Match -> seq<Rule>>, matches: seq<Match>): (r: seq<IgnoredMatch>) {
    if matches == [] then []
    else
      var last := matches[|matches| - 1];
      DroppedMatches(filters, matches[..|matches| - 1])
      + (if AllRules(filters, last) == [] then [] else [IgnoredMatch(last, AllRules(filters, last))])
  }

  /**
   Every match goes to exactly one of the two lists: to the ignored ones with all rules that applied,
   which are some, or to the kept ones when none applied.
   */
  lemma {:induction false} EveryMatchOnce(filters: seq<Match -> seq<Rule>>, matches: seq<Match>)
    ensures multiset(KeptMatches(filters, matches)) + multiset(Subjects(DroppedMatches(filters, matches))) ==
            multiset(matches)
    ensures forall m :: m in KeptMatches(filters, matches) ==> AllRules(filters, m) == []
    ensures forall x :: x in DroppedMatches(filters, matches) ==> x.rules == AllRules(filters, x.m) != []
  {
    if matches != [] {
      var front, last := matches[..|matches| - 1], matches[|matches| - 1];
      assert matches == front + [last];
      EveryMatchOnce(filters, front);
      SubjectsSnoc(filters, matches);
    }
  }

  /** Both lists keep the order of the matches, and the rules of a match come in the order of the filters. */
  lemma {:induction false} KeptInOrder(filters: seq<Match -> seq<Rule>>, a: seq<Match>, b: seq<Match>)
    ensures KeptMatches(filters, a + b) == KeptMatches(filters, a) + KeptMatches(filters, b)
    decreases |b|
  {
    if b == [] {
      assert a + b == a;
    } else {
      KeptInOrder(filters, a, b[..|b| - 1]);
      FrontOfConcat(a, b);
    }
  }

  lemma {:induction false} DroppedInOrder(filters: seq<Match -> seq<Rule>>, a: seq<Match>, b: seq<Match>)
    ensures DroppedMatches(filters, a + b) == DroppedMatches(filters, a) + DroppedMatches(filters, b)
    decreases |b|
  {
    if b == [] {
      assert a + b == a;
    } else {
      DroppedInOrder(filters, a, b[..|b| - 1]);
      FrontOfConcat(a, b);
    }
  }

  lemma {:induction false} RulesInOrder(fs: seq<Match -> seq<Rule>>, gs: seq<Match -> seq<Rule>>, m: Match)
    ensures AllRules(fs + gs, m) == AllRules(fs, m) + AllRules(gs, m)
    ensures |gs| == 1 ==> AllRules(gs, m) == gs[0](m)
    decreases |gs|
  {
    if gs == [] {
      assert fs + gs == fs;
    } else {
      var front, last := gs[..|gs| - 1], gs[|gs| - 1];
      RulesInOrder(fs, front, m);
      assert (fs + gs)[..|fs + gs| - 1] == fs + front && (fs + gs)[|fs + gs| - 1] == last;
    }
  }

  /** The inner loop of ApplyIgnoreFilters. */
  method ApplicableRules(filters: seq<Match -> seq<Rule>>, m: Match) returns (rules: seq<Rule>)
    ensures rules == AllRules(filters, m)
  {
    rules := [];
    var j := 0;
    while j < |filters|
      invariant 0 <= j <= |filters|
      invariant rules == AllRules(filters[..j], m)
    {
      assert filters[..j + 1][..j] == filters[..j];
      rules := rules + filters[j](m);
      j := j + 1;
    }
    assert filters[..j] == filters;
  }

  /** ApplyIgnoreFilters: two lists, both in order, that together hold every match exactly once. */
  method ApplyIgnoreFilters(matches: seq<Match>, filters: seq<Match -> seq<Rule>>)
    returns (out: seq<Match>, ignored: seq<IgnoredMatch>)
    ensures out == KeptMatches(filters, matches)
    ensures ignored == DroppedMatches(filters, matches)
    ensures multiset(out) + multiset(Subjects(ignored)) == multiset(matches)
    ensures forall m :: m in out ==> AllRules(filters, m) == []
    ensures forall x :: x in ignored ==> x.rules == AllRules(filters, x.m) != []
  {
    out, ignored := [], [];
    var i := 0;
    while i < |matches|
      invariant 0 <= i <= |matches|
      invariant out == KeptMatches(filters, matches[..i]) && ignored == DroppedMatches(filters, matches[..i])
    {
      assert matches[..i + 1][..i] == matches[..i];
      var applicable := ApplicableRules(filters, matches[i]);
      if |applicable| > 0 {
        ignored := ignored + [IgnoredMatch(matches[i], applicable)];
      } else {
        out := out + [matches[i]];
      }
      i := i + 1;
    }
    assert matches[..i] == matches;
    EveryMatchOnce(filters, matches);
  }

  function AsFunction(e: Engines, f: Filter): (g: Match -> seq<Rule>) {
    m => Answer(e, f, m)
  }

  function AsFunctions(e: Engines, filters: seq<Filter>): (fs: seq<Match -> seq<Rule>>) {
    if filters == [] then []
    else AsFunctions(e, filters[..|filters| - 1]) + [AsFunction(e, filters[|filters| - 1])]
  }

  function IndexAsFunction(e: Engines, index: Index): (f: Match -> seq<Rule>) {
    m => FirstAnswer(e, Consulted(index, m), m)
  }

  lemma {:induction false} LinearRules(e: Engines, filters: seq<Filter>, m: Match)
    ensures AllRules(AsFunctions(e, filters), m) != [] <==> LinearIgnores(e, filters, m)
  {
    if filters != [] {
      var front, last := filters[..|filters| - 1], filters[|filters| - 1];
      LinearRules(e, front, m);
      RulesSnoc(AsFunctions(e, front), AsFunction(e, last), m);
      IgnoresSnoc(e, front, last, m);
      assert filters == front + [last];
    }
  }

  lemma RulesSnoc(fs: seq<Match -> seq<Rule>>, g: Match -> seq<Rule>, m: Match)
    ensures AllRules(fs + [g], m) == AllRules(fs, m) + g(m)
  {
    assert (fs + [g])[..|fs|] == fs;
  }

  lemma IgnoresSnoc(e: Engines, front: seq<Filter>, last: Filter, m: Match)
    ensures LinearIgnores(e, front + [last], m) <==> LinearIgnores(e, front, m) || Applies(e, last, m)
  {
    assert forall f :: f in front + [last] <==> f in front || f == last;
  }

  /** Which matches a list of ignored matches is about. */
  function Subjects(ignored: seq<IgnoredMatch>): (r: seq<Match>)
    ensures |r| == |ignored| && forall i :: 0 <= i < |ignored| ==> r[i] == ignored[i].m
  {
    seq(|ignored|, i requires 0 <= i < |ignored| => ignored[i].m)
  }

  /** Two filter lists that ignore the same matches partition any list of them alike. */
  lemma {:induction false} SamePartition(fs: seq<Match -> seq<Rule>>, gs: seq<Match -> seq<Rule>>, matches: seq<Match>)
    requires forall m :: m in matches ==> (AllRules(fs, m) == [] <==> AllRules(gs, m) == [])
    ensures KeptMatches(fs, matches) == KeptMatches(gs, matches)
    ensures Subjects(DroppedMatches(fs, matches)) == Subjects(DroppedMatches(gs, matches))
  {
    if matches != [] {
      var front, last := matches[..|matches| - 1], matches[|matches| - 1];
      assert matches == front + [last];
      SamePartition(fs, gs, front);
      SubjectsSnoc(fs, matches);
      SubjectsSnoc(gs, matches);
    }
  }

  lemma SubjectsSnoc(fs: seq<Match -> seq<Rule>>, matches: seq<Match>)
    requires matches != []
    ensures var last := matches[|matches| - 1];
            Subjects(DroppedMatches(fs, matches)) ==
            Subjects(DroppedMatches(fs, matches[..|matches| - 1])) + (if AllRules(fs, last) == [] then [] else [last])
  {
  }

  /** Under the index's assumptions both ways of filtering keep and ignore the same matches. */
  lemma IndexPartitionsLikeScan(e: Engines, index: Index, filters: seq<Filter>, matches: seq<Match>)
    requires IsIndex(index, filters)
    requires forall f :: f in filters ==> Indexable(e, f)
    requires forall m :: m in matches ==> SamePaths(m)
    ensures KeptMatches([IndexAsFunction(e, index)], matches) == KeptMatches(AsFunctions(e, filters), matches)
    ensures Subjects(DroppedMatches([IndexAsFunction(e, index)], matches)) ==
            Subjects(DroppedMatches(AsFunctions(e, filters), matches))
  {
    var one := [IndexAsFunction(e, index)];
    forall m | m in matches ensures AllRules(one, m) == [] <==> AllRules(AsFunctions(e, filters), m) == [] {
      assert AllRules(one, m) == AllRules(one[..0], m) + one[0](m);
      LinearRules(e, filters, m);
      IndexAgrees(e, index, filters, m);
    }
    SamePartition(one, AsFunctions(e, filters), matches);
  }
}
