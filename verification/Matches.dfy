/**
 The collection of vulnerability matches: one map by fingerprint and two indexes, updated by an
 add/merge/replace state machine. The order in which Go walks a map is arbitrary, so one call has
 several possible outcomes; Step relates a state to every state the code can reach from it.
 */
module Matching {
  import opened Decimal
  import opened DetailOrder
  import opened Findings
  import opened Order
  import opened Prelude
  import opened Runs
  import opened Sorting

  datatype Core = Core(vulnerabilityID: string, namespace: string, packageID: string)

  datatype Fingerprint = Fingerprint(core: Core, fixes: string)

  const EMPTY_FINGERPRINT := Fingerprint(Core("", "", ""), "")

  function Join(parts: seq<string>, sep: string): (s: string) {
    if parts == [] then "" else if |parts| == 1 then parts[0] else parts[0] + sep + Join(parts[1..], sep)
  }

  function FingerprintOf(m: Match): (fp: Fingerprint) {
    Fingerprint(Core(m.vulnerability.id, m.vulnerability.namespace, m.pkg.id),
                Join(m.vulnerability.fixVersions, ","))
  }

  // ----- merging two matches

  function ReferenceID(r: Reference): (s: string) {
    r.namespace + ":" + r.id
  }

  predicate ReferenceLess(a: Reference, b: Reference) {
    CompareText(ReferenceID(a), ReferenceID(b)) < 0
  }

  function Ids(details: seq<Detail>): (ids: set<string>) {
    set d | d in details :: d.id
  }

  function ReferenceIDs(refs: seq<Reference>): (ids: set<string>) {
    set r | r in refs :: ReferenceID(r)
  }

  /** The details whose id is not known yet, in order. */
  function NewDetails(known: set<string>, details: seq<Detail>): (r: seq<Detail>)
    ensures forall d :: d in r <==> d in details && d.id !in known
  {
    if details == [] then []
    else (if details[0].id in known then [] else [details[0]]) + NewDetails(known, details[1..])
  }

  function NewReferences(known: set<string>, refs: seq<Reference>): (r: seq<Reference>)
    ensures forall x :: x in r <==> x in refs && ReferenceID(x) !in known
  {
    if refs == [] then []
    else (if ReferenceID(refs[0]) in known then [] else [refs[0]]) + NewReferences(known, refs[1..])
  }

  /** Match.Merge: None is ErrCannotMerge. */
  function Merge(m: Match, other: Match): (r: Option<Match>)
    ensures r.Some? <==> FingerprintOf(other) == FingerprintOf(m)
    ensures r.Some? ==> FingerprintOf(r.value) == FingerprintOf(m)
  {
    if FingerprintOf(other) != FingerprintOf(m) then None
    else
      var related := m.vulnerability.related
                     + NewReferences(ReferenceIDs(m.vulnerability.related), other.vulnerability.related);
      var details := m.details + NewDetails(Ids(m.details), other.details);
      Some(m.(vulnerability := m.vulnerability.(related := Sort(ReferenceLess, related)),
              details := Sort(DetailLess, details)))
  }

  /** Merging loses no detail id and adds only those of the other match. */
  lemma MergeUnitesDetails(m: Match, other: Match)
    requires Merge(m, other).Some?
    ensures Ids(Merge(m, other).value.details) == Ids(m.details) + Ids(other.details)
  {
    var r := Merge(m, other).value;
    var news := NewDetails(Ids(m.details), other.details);
    SortedIds(m.details + news);
    AppendedIds(m.details, news);
    forall id | id in Ids(other.details) && id !in Ids(m.details) ensures id in Ids(news) {
      var d :| d in other.details && d.id == id;
      assert d in news;
    }
  }

  /** Merging loses no related vulnerability and adds only those of the other match. */
  lemma MergeUnitesReferences(m: Match, other: Match)
    requires Merge(m, other).Some?
    ensures ReferenceIDs(Merge(m, other).value.vulnerability.related) ==
            ReferenceIDs(m.vulnerability.related) + ReferenceIDs(other.vulnerability.related)
  {
    var mine, theirs := m.vulnerability.related, other.vulnerability.related;
    var news := NewReferences(ReferenceIDs(mine), theirs);
    forall x ensures x in Sort(ReferenceLess, mine + news) <==> x in mine || x in news {
      SortMembers(ReferenceLess, mine + news, x);
    }
    forall id | id in ReferenceIDs(theirs) && id !in ReferenceIDs(mine) ensures id in ReferenceIDs(news) {
      var x :| x in theirs && ReferenceID(x) == id;
      assert x in news;
    }
  }

  predicate SameReference(x: Reference, y: Reference) {
    x.namespace + ":" + x.id == y.namespace + ":" + y.id
  }

  ghost predicate HoldsReference(refs: seq<Reference>, x: Reference) {
    exists y :: y in refs && SameReference(y, x)
  }

  predicate NotAfter(x: Reference, y: Reference) {
    CompareText(x.namespace + ":" + x.id, y.namespace + ":" + y.id) <= 0
  }

  /** The related vulnerabilities of a merge, by namespace and id, and their order. */
  lemma MergedReferences(m: Match, other: Match, merged: seq<Reference>)
    requires Merge(m, other).Some? && merged == Merge(m, other).value.vulnerability.related
    ensures forall x :: x in merged ==> x in m.vulnerability.related || x in other.vulnerability.related
    ensures forall x :: x in m.vulnerability.related ==> x in merged
    ensures forall x :: x in other.vulnerability.related ==> HoldsReference(merged, x)
    ensures forall i, j :: 0 <= i < j < |merged| ==> NotAfter(merged[i], merged[j])
  {
    var mine, theirs := m.vulnerability.related, other.vulnerability.related;
    var all := mine + NewReferences(ReferenceIDs(mine), theirs);
    forall x ensures x in Sort(ReferenceLess, all) <==> x in mine || x in NewReferences(ReferenceIDs(mine), theirs) {
      SortMembers(ReferenceLess, all, x);
    }
    forall x | x in theirs
      ensures HoldsReference(merged, x)
    {
      if ReferenceID(x) in ReferenceIDs(mine) {
        var y :| y in mine && ReferenceID(y) == ReferenceID(x);
        assert y in Sort(ReferenceLess, all) && SameReference(y, x);
      } else {
        assert x in Sort(ReferenceLess, all) && SameReference(x, x);
      }
    }
    ReferencesAreSorted(all, merged);
  }

  lemma ReferencesAreSorted(refs: seq<Reference>, sorted: seq<Reference>)
    requires sorted == Sort(ReferenceLess, refs)
    ensures forall i, j :: 0 <= i < j < |sorted| ==> NotAfter(sorted[i], sorted[j])
  {
    var all := iset r: Reference | ReferenceID(r) == r.namespace + ":" + r.id;
    forall x: Reference, y: Reference | ReferenceLess(x, y) ensures !ReferenceLess(y, x) {
      CompareTextAntisymmetric(ReferenceID(x), ReferenceID(y));
    }
    forall x: Reference, y: Reference, z: Reference | ReferenceLess(x, z)
      ensures ReferenceLess(x, y) || ReferenceLess(y, z)
    {
      CompareTextIsPreorder();
      Chain(CompareText, ReferenceID(z), ReferenceID(y), ReferenceID(x));
      CompareTextAntisymmetric(ReferenceID(x), ReferenceID(z));
      CompareTextAntisymmetric(ReferenceID(x), ReferenceID(y));
      CompareTextAntisymmetric(ReferenceID(y), ReferenceID(z));
    }
    SortOrdered(ReferenceLess, all, refs);
    forall i, j | 0 <= i < j < |sorted| ensures NotAfter(sorted[i], sorted[j]) {
      assert !ReferenceLess(sorted[j], sorted[i]);
      CompareTextAntisymmetric(ReferenceID(sorted[i]), ReferenceID(sorted[j]));
    }
  }

  /** A version text that the joined fix versions keep apart from its neighbours. */
  predicate PlainFix(v: string) {
    v != "" && ',' !in v
  }

  /** A prefix without a comma does not reach beyond one that a comma or the end follows. */
  lemma NotLonger(s: string, x: string, y: string)
    requires x <= s && y <= s && ',' !in y
    requires |x| < |s| ==> s[|x|] == ','
    ensures |y| <= |x|
  {
    forall i | 0 <= i < |y| ensures s[i] != ',' {
      assert s[i] == y[i] && y[i] in y;
    }
  }

  lemma {:induction false} JoinTellsApart(a: seq<string>, b: seq<string>)
    requires forall v :: v in a || v in b ==> PlainFix(v)
    requires Join(a, ",") == Join(b, ",")
    ensures a == b
    decreases |a|
  {
    if a == [] {
      if b != [] { FirstOfJoin(b); }
    } else if b == [] {
      FirstOfJoin(a);
    } else {
      FirstOfJoin(a);
      FirstOfJoin(b);
      var s := Join(a, ",");
      assert a[0] in a && b[0] in b;
      NotLonger(s, a[0], b[0]);
      NotLonger(s, b[0], a[0]);
      assert a[0] == s[..|a[0]|] == b[0];
      if |a| > 1 && |b| > 1 {
        assert Join(a[1..], ",") == s[|a[0]| + 1..] == Join(b[1..], ",");
        JoinTellsApart(a[1..], b[1..]);
      }
      assert a == [a[0]] + a[1..] && b == [b[0]] + b[1..];
    }
  }

  /** A join starts with its first part, which a comma or the end follows. */
  lemma FirstOfJoin(a: seq<string>)
    requires a != [] && forall v :: v in a ==> PlainFix(v)
    ensures var s := Join(a, ",");
            && a[0] <= s && s != ""
            && (|a| == 1 ==> s == a[0])
            && (|a| > 1 ==> |s| > |a[0]| && s[|a[0]|] == ',' && s[|a[0]| + 1..] == Join(a[1..], ","))
  {
    assert a[0] in a;
  }

  /** Two matches share a fingerprint exactly for one vulnerability, namespace, package and list of fixes. */
  lemma FingerprintsTellApart(a: Match, b: Match)
    requires forall v :: v in a.vulnerability.fixVersions || v in b.vulnerability.fixVersions ==> PlainFix(v)
    ensures FingerprintOf(a) == FingerprintOf(b) <==>
            && a.vulnerability.id == b.vulnerability.id
            && a.vulnerability.namespace == b.vulnerability.namespace
            && a.pkg.id == b.pkg.id
            && a.vulnerability.fixVersions == b.vulnerability.fixVersions
  {
    if FingerprintOf(a) == FingerprintOf(b) {
      JoinTellsApart(a.vulnerability.fixVersions, b.vulnerability.fixVersions);
    }
  }

  lemma SortedIds(details: seq<Detail>)
    ensures Ids(Sort(DetailLess, details)) == Ids(details)
  {
    forall d ensures d in Sort(DetailLess, details) <==> d in details {
      SortMembers(DetailLess, details, d);
    }
  }

  lemma AppendedIds(a: seq<Detail>, b: seq<Detail>)
    ensures Ids(a + b) == Ids(a) + Ids(b)
  {
    assert forall d :: d in a + b <==> d in a || d in b;
  }

  // ----- the state machine

  datatype Store = Store(
    byFingerprint: map<Fingerprint, Match>,
    byCore: map<Core, set<Fingerprint>>,
    byPackage: map<string, set<Fingerprint>>
  )

  const EMPTY := Store(map[], map[], map[])

  predicate HasType(details: seq<Detail>, ty: MatchType) {
    exists d :: d in details && d.ty == ty
  }

  predicate OnlyType(details: seq<Detail>, ty: MatchType) {
    details != [] && forall d :: d in details ==> d.ty == ty
  }

  predicate Supersedes(m: Match, existing: Match) {
    HasType(m.details, ExactDirect) && OnlyType(existing.details, ExactIndirect)
  }

  /** r.byFingerprint[fp] in Go: the zero match when fp is stale. */
  function Read(s: Store, fp: Fingerprint): (m: Match) {
    if fp in s.byFingerprint then s.byFingerprint[fp] else ZERO_MATCH
  }

  /** The fingerprints filed under a package. */
  function Filed(s: Store, id: string): (fps: set<Fingerprint>) {
    if id in s.byPackage then s.byPackage[id] else {}
  }

  function Moved(fps: set<Fingerprint>, from: Fingerprint, to: Fingerprint): (r: set<Fingerprint>) {
    if from in fps then fps - {from} + {to} else fps
  }

  /** replace, once the two fingerprints have one core: byCore keeps the old fingerprint. */
  function Replaced(s: Store, m: Match, former: Fingerprint, fp: Fingerprint, extra: seq<Detail>): (r: Store) {
    Store((s.byFingerprint - {former})[fp := m.(details := Sort(DetailLess, m.details + extra))],
          s.byCore,
          map p | p in s.byPackage :: Moved(s.byPackage[p], former, fp))
  }

  /** The loop over existing fingerprints returns at e rather than going on. */
  predicate Decisive(s: Store, m: Match, e: Fingerprint) {
    || (Supersedes(m, Read(s, e)) && e.core == FingerprintOf(m).core)
    || FingerprintOf(Read(s, e)) == FingerprintOf(m)
  }

  /** The state after the loop returned at e. A merge at e is made on a copy and not stored. */
  function Decided(s: Store, m: Match, e: Fingerprint): (r: Store) {
    if Supersedes(m, Read(s, e)) && e.core == FingerprintOf(m).core
    then Replaced(s, m, e, FingerprintOf(m), Read(s, e).details)
    else s
  }

  /** mergeCoreMatches can end in s' with the given answer. */
  ghost predicate CoreOutcome(s: Store, m: Match, fps: set<Fingerprint>, s': Store, merged: bool) {
    if merged then exists e :: e in fps && Decisive(s, m, e) && s' == Decided(s, m, e)
    else s' == s && forall e :: e in fps ==> !Decisive(s, m, e)
  }

  function Stored(s: Store, m: Match): (r: Store) {
    s.(byFingerprint := s.byFingerprint[FingerprintOf(m) := m])
  }

  function MergedInto(existing: Match, m: Match): (r: Match) {
    var merged := Merge(existing, m);
    if merged.Some? then merged.value else existing.(details := existing.details + m.details)
  }

  /** addOrMerge can end in s'. */
  ghost predicate AddOrMergeOutcome(s: Store, m: Match, s': Store) {
    var fp := FingerprintOf(m);
    if fp in s.byFingerprint then
      s' == s.(byFingerprint := s.byFingerprint[fp := MergedInto(s.byFingerprint[fp], m)])
    else if fp.core in s.byCore then
      CoreOutcome(s, m, s.byCore[fp.core], s', true)
      || (s' == Stored(s, m) && CoreOutcome(s, m, s.byCore[fp.core], s, false))
    else s' == Stored(s, m)
  }

  function Entry<K>(index: map<K, set<Fingerprint>>, k: K): (fps: set<Fingerprint>) {
    if k in index then index[k] else {}
  }

  /** The index updates that end every Add. */
  function Indexed(s: Store, m: Match): (r: Store) {
    var fp := FingerprintOf(m);
    s.(byCore := s.byCore[fp.core := Entry(s.byCore, fp.core) + {fp}],
       byPackage := s.byPackage[m.pkg.id := Entry(s.byPackage, m.pkg.id) + {fp}])
  }

  /** Adding m to s can end in s'. */
  ghost predicate Step(s: Store, m: Match, s': Store) {
    exists mid :: AddOrMergeOutcome(s, m, mid) && s' == Indexed(mid, m)
  }

  /** Adding the matches ms one after the other, starting in from, can end in s. */
  ghost predicate AddReaches(from: Store, ms: seq<Match>, s: Store) {
    Reaches(Step, from, ms, s)
  }

  // ----- the invariant

  /** Every stored match sits under its own fingerprint. */
  ghost predicate OwnKeys(s: Store) {
    forall fp :: fp in s.byFingerprint ==> FingerprintOf(s.byFingerprint[fp]) == fp
  }

  /** byPackage holds exactly the live fingerprints of each package. */
  ghost predicate PackagesExact(s: Store) {
    && (forall p :: p in s.byPackage ==>
                      forall fp :: fp in s.byPackage[p] <==> fp in s.byFingerprint && fp.core.packageID == p)
    && (forall fp :: fp in s.byFingerprint ==> fp.core.packageID in s.byPackage)
  }

  /** byCore files every fingerprint under its core and covers the live ones; it may hold stale ones. */
  ghost predicate CoresCover(s: Store) {
    && (forall c :: c in s.byCore ==> forall fp :: fp in s.byCore[c] ==> fp.core == c)
    && (forall fp :: fp in s.byFingerprint ==> fp.core in s.byCore && fp in s.byCore[fp.core])
  }

  ghost predicate Valid(s: Store) {
    OwnKeys(s) && PackagesExact(s) && CoresCover(s)
  }

  /** The one situation in which a stale index entry swallows a new match. */
  ghost predicate Absorbs(s: Store, m: Match) {
    && FingerprintOf(m) == EMPTY_FINGERPRINT
    && EMPTY_FINGERPRINT !in s.byFingerprint
    && EMPTY_FINGERPRINT.core in s.byCore
    && exists e :: e in s.byCore[EMPTY_FINGERPRINT.core] && e !in s.byFingerprint
  }

  lemma EmptyFingerprint()
    ensures FingerprintOf(ZERO_MATCH) == EMPTY_FINGERPRINT
  {
  }

  /** Without absorption the loop only ever returns by replacing a live match of the same core. */
  lemma DecisiveReplaces(s: Store, m: Match, e: Fingerprint)
    requires Valid(s) && FingerprintOf(m) !in s.byFingerprint
    requires FingerprintOf(m).core in s.byCore && e in s.byCore[FingerprintOf(m).core]
    requires Decisive(s, m, e) && !Absorbs(s, m)
    ensures e in s.byFingerprint && e.core == FingerprintOf(m).core && e != FingerprintOf(m)
    ensures Decided(s, m, e) == Replaced(s, m, e, FingerprintOf(m), s.byFingerprint[e].details)
  {
    EmptyFingerprint();
  }

  /** What addOrMerge leaves behind, for the maps by fingerprint and by package. */
  ghost predicate Shape(s: Store, m: Match, mid: Store) {
    var fp := FingerprintOf(m);
    && mid.byCore == s.byCore
    && fp in mid.byFingerprint
    && (forall x :: x in mid.byFingerprint ==> FingerprintOf(mid.byFingerprint[x]) == x)
    && (forall x :: x in mid.byFingerprint ==> x == fp || x in s.byFingerprint)
    && (forall x :: x in s.byFingerprint && x.core != fp.core ==> x in mid.byFingerprint)
    && mid.byPackage.Keys == s.byPackage.Keys
    && (forall p :: p in mid.byPackage ==>
                      forall x :: x != fp ==> (x in mid.byPackage[p] <==> x in mid.byFingerprint && x.core.packageID == p))
    && (forall p :: p in mid.byPackage && fp in mid.byPackage[p] ==> p == fp.core.packageID)
  }

  lemma ShapeOfReplaced(s: Store, m: Match, e: Fingerprint)
    requires Valid(s) && FingerprintOf(m) !in s.byFingerprint
    requires e in s.byFingerprint && e.core == FingerprintOf(m).core && e != FingerprintOf(m)
    ensures Shape(s, m, Replaced(s, m, e, FingerprintOf(m), s.byFingerprint[e].details))
  {
    var fp, mid := FingerprintOf(m), Replaced(s, m, e, FingerprintOf(m), s.byFingerprint[e].details);
    assert mid.byFingerprint.Keys == s.byFingerprint.Keys - {e} + {fp};
    forall p | p in mid.byPackage
      ensures forall x :: x != fp ==> (x in mid.byPackage[p] <==> x in mid.byFingerprint && x.core.packageID == p)
      ensures fp in mid.byPackage[p] ==> p == fp.core.packageID
    {
      assert mid.byPackage[p] == Moved(s.byPackage[p], e, fp);
    }
  }

  lemma AddOrMergeShape(s: Store, m: Match, mid: Store)
    requires Valid(s) && !Absorbs(s, m) && AddOrMergeOutcome(s, m, mid)
    ensures Shape(s, m, mid)
  {
    var fp := FingerprintOf(m);
    if fp !in s.byFingerprint && fp.core in s.byCore && CoreOutcome(s, m, s.byCore[fp.core], mid, true) {
      var e :| e in s.byCore[fp.core] && Decisive(s, m, e) && mid == Decided(s, m, e);
      DecisiveReplaces(s, m, e);
      ShapeOfReplaced(s, m, e);
    }
  }

  lemma IndexedPackages(s: Store, m: Match, mid: Store)
    requires PackagesExact(s) && Shape(s, m, mid)
    ensures PackagesExact(Indexed(mid, m))
  {
    var fp, s' := FingerprintOf(m), Indexed(mid, m);
    forall p, x | p in s'.byPackage
      ensures x in s'.byPackage[p] <==> x in s'.byFingerprint && x.core.packageID == p
    {
      if p !in mid.byPackage && x in s.byFingerprint { assert x.core.packageID in s.byPackage; }
    }
  }

  lemma IndexedCores(s: Store, m: Match, mid: Store)
    requires CoresCover(s) && Shape(s, m, mid)
    ensures CoresCover(Indexed(mid, m))
  {
    var fp, s' := FingerprintOf(m), Indexed(mid, m);
    forall c, x | c in s'.byCore && x in s'.byCore[c] ensures x.core == c {
      if x != fp { assert x in s.byCore[c]; }
    }
    forall x | x in s'.byFingerprint ensures x.core in s'.byCore && x in s'.byCore[x.core] {
      if x != fp { assert x in s.byFingerprint; }
    }
  }

  lemma IndexedIsValid(s: Store, m: Match, mid: Store)
    requires Valid(s) && Shape(s, m, mid)
    ensures Valid(Indexed(mid, m))
  {
    IndexedPackages(s, m, mid);
    IndexedCores(s, m, mid);
    assert OwnKeys(Indexed(mid, m));
  }

  /** Every outcome of Add keeps the invariant and leaves the new fingerprint live. */
  lemma StepKeepsValid(s: Store, m: Match, s': Store)
    requires Valid(s) && Step(s, m, s') && !Absorbs(s, m)
    ensures Valid(s') && FingerprintOf(m) in s'.byFingerprint
  {
    var mid :| AddOrMergeOutcome(s, m, mid) && s' == Indexed(mid, m);
    AddOrMergeShape(s, m, mid);
    IndexedIsValid(s, m, mid);
  }

  /** Add is safe in a state exactly when the match is not absorbed there. */
  lemma AddIsSafeExactly(s: Store, m: Match)
    requires Valid(s)
    ensures !Absorbs(s, m) <==> forall s' :: Step(s, m, s') ==> Valid(s')
  {
    if Absorbs(s, m) {
      EmptyFingerprint();
      var fp := EMPTY_FINGERPRINT;
      var e :| e in s.byCore[fp.core] && e !in s.byFingerprint;
      assert !Supersedes(m, Read(s, e));
      assert Decisive(s, m, e) && Decided(s, m, e) == s;
      assert CoreOutcome(s, m, s.byCore[fp.core], s, true);
      assert AddOrMergeOutcome(s, m, s);
      var s' := Indexed(s, m);
      assert Step(s, m, s');
      assert m.pkg.id == "" && fp in s'.byPackage[""] && fp !in s'.byFingerprint;
      assert !Valid(s');
    } else {
      forall s' | Step(s, m, s') ensures Valid(s') {
        StepKeepsValid(s, m, s');
      }
    }
  }

  lemma FiledAreLive(s: Store, id: string)
    requires Valid(s)
    ensures Filed(s, id) == set fp | fp in s.byFingerprint && fp.core.packageID == id
    ensures forall m :: (exists fp :: fp in Filed(s, id) && Read(s, fp) == m) <==>
                        exists fp :: fp in s.byFingerprint && s.byFingerprint[fp] == m && m.pkg.id == id
  {
    forall fp | fp in s.byFingerprint ensures s.byFingerprint[fp].pkg.id == fp.core.packageID {
      assert FingerprintOf(s.byFingerprint[fp]) == fp;
    }
  }

  // ----- conservation of details

  /** Some live match with core c carries the detail id. */
  ghost predicate Holds(s: Store, c: Core, id: string) {
    exists fp :: fp in s.byFingerprint && fp.core == c && id in Ids(s.byFingerprint[fp].details)
  }

  ghost predicate HasCore(s: Store, c: Core) {
    exists fp :: fp in s.byFingerprint && fp.core == c
  }

  /** A changed entry gains exactly the ids of m; all other entries keep theirs or are folded in. */
  lemma ConservedByUpdate(s: Store, m: Match, mid: Store, gone: set<Fingerprint>, c: Core, id: string)
    requires FingerprintOf(m) in mid.byFingerprint
    requires forall x :: x in gone ==> x in s.byFingerprint && x.core == FingerprintOf(m).core
    requires forall x :: x != FingerprintOf(m) ==>
                           (x in mid.byFingerprint <==> x in s.byFingerprint && x !in gone)
    requires forall x :: x != FingerprintOf(m) && x in mid.byFingerprint ==>
                           mid.byFingerprint[x] == s.byFingerprint[x]
    requires forall i :: i in Ids(mid.byFingerprint[FingerprintOf(m)].details) <==>
                         || i in Ids(m.details)
                         || exists x :: (x in gone || x == FingerprintOf(m)) && x in s.byFingerprint
                                        && i in Ids(s.byFingerprint[x].details)
    ensures Holds(mid, c, id) <==> Holds(s, c, id) || (c == FingerprintOf(m).core && id in Ids(m.details))
  {
    var fp := FingerprintOf(m);
    if Holds(mid, c, id) {
      var x :| x in mid.byFingerprint && x.core == c && id in Ids(mid.byFingerprint[x].details);
      if x != fp { assert x in s.byFingerprint; }
    }
    if Holds(s, c, id) {
      var x :| x in s.byFingerprint && x.core == c && id in Ids(s.byFingerprint[x].details);
      if x == fp || x in gone {
        assert id in Ids(mid.byFingerprint[fp].details);
      } else {
        assert x in mid.byFingerprint;
      }
    }
  }

  lemma ReplacedConserves(s: Store, m: Match, e: Fingerprint, c: Core, id: string)
    requires FingerprintOf(m) !in s.byFingerprint
    requires e in s.byFingerprint && e.core == FingerprintOf(m).core && e != FingerprintOf(m)
    ensures var mid := Replaced(s, m, e, FingerprintOf(m), s.byFingerprint[e].details);
            Holds(mid, c, id) <==> Holds(s, c, id) || (c == FingerprintOf(m).core && id in Ids(m.details))
  {
    var mid := Replaced(s, m, e, FingerprintOf(m), s.byFingerprint[e].details);
    SortedIds(m.details + s.byFingerprint[e].details);
    AppendedIds(m.details, s.byFingerprint[e].details);
    ConservedByUpdate(s, m, mid, {e}, c, id);
  }

  lemma MergedConserves(s: Store, m: Match, c: Core, id: string)
    requires OwnKeys(s) && FingerprintOf(m) in s.byFingerprint
    ensures var fp := FingerprintOf(m);
            var mid := s.(byFingerprint := s.byFingerprint[fp := MergedInto(s.byFingerprint[fp], m)]);
            Holds(mid, c, id) <==> Holds(s, c, id) || (c == fp.core && id in Ids(m.details))
  {
    var fp := FingerprintOf(m);
    MergeUnitesDetails(s.byFingerprint[fp], m);
    ConservedByUpdate(s, m, s.(byFingerprint := s.byFingerprint[fp := MergedInto(s.byFingerprint[fp], m)]), {}, c, id);
  }

  lemma StoredConserves(s: Store, m: Match, c: Core, id: string)
    requires FingerprintOf(m) !in s.byFingerprint
    ensures Holds(Stored(s, m), c, id) <==> Holds(s, c, id) || (c == FingerprintOf(m).core && id in Ids(m.details))
  {
    ConservedByUpdate(s, m, Stored(s, m), {}, c, id);
  }

  lemma OutcomeConservesDetails(s: Store, m: Match, mid: Store, c: Core, id: string)
    requires Valid(s) && AddOrMergeOutcome(s, m, mid) && !Absorbs(s, m)
    ensures Holds(mid, c, id) <==> Holds(s, c, id) || (c == FingerprintOf(m).core && id in Ids(m.details))
  {
    var fp := FingerprintOf(m);
    if fp in s.byFingerprint {
      MergedConserves(s, m, c, id);
    } else if fp.core in s.byCore && CoreOutcome(s, m, s.byCore[fp.core], mid, true) {
      var e :| e in s.byCore[fp.core] && Decisive(s, m, e) && mid == Decided(s, m, e);
      DecisiveReplaces(s, m, e);
      ReplacedConserves(s, m, e, c, id);
    } else {
      StoredConserves(s, m, c, id);
    }
  }

  /** The details held for a core gain exactly the details of the added match. */
  lemma StepConservesDetails(s: Store, m: Match, s': Store, c: Core, id: string)
    requires Valid(s) && Step(s, m, s') && !Absorbs(s, m)
    ensures Holds(s', c, id) <==> Holds(s, c, id) || (c == FingerprintOf(m).core && id in Ids(m.details))
  {
    var mid :| AddOrMergeOutcome(s, m, mid) && s' == Indexed(mid, m);
    OutcomeConservesDetails(s, m, mid, c, id);
    assert s'.byFingerprint == mid.byFingerprint;
  }

  lemma StepConservesCores(s: Store, m: Match, s': Store, c: Core)
    requires Valid(s) && Step(s, m, s') && !Absorbs(s, m)
    ensures HasCore(s', c) <==> HasCore(s, c) || c == FingerprintOf(m).core
  {
    var mid :| AddOrMergeOutcome(s, m, mid) && s' == Indexed(mid, m);
    AddOrMergeShape(s, m, mid);
    var fp := FingerprintOf(m);
    assert fp in s'.byFingerprint;
    if HasCore(s, c) && c != fp.core {
      var x :| x in s.byFingerprint && x.core == c;
      assert x in s'.byFingerprint;
    }
  }

  // ----- which fingerprints leave

  /**
   The live fingerprint x gives way to the new match m: they share the core, m was matched directly,
   and all details of the match at x, of which there are some, are exact indirect ones.
   */
  ghost predicate GivesWay(s: Store, m: Match, x: Fingerprint) {
    && x in s.byFingerprint
    && x.core == Core(m.vulnerability.id, m.vulnerability.namespace, m.pkg.id)
    && (exists d :: d in m.details && d.ty == ExactDirect)
    && s.byFingerprint[x].details != []
    && (forall d :: d in s.byFingerprint[x].details ==> d.ty == ExactIndirect)
  }

  /** What one Add does to the live matches, given the fingerprints that leave. */
  ghost predicate Accounts(s: Store, m: Match, s': Store, gone: set<Fingerprint>) {
    var fp := FingerprintOf(m);
    && s'.byFingerprint.Keys == s.byFingerprint.Keys - gone + {fp}
    && (forall x :: x in s.byFingerprint && x !in gone && x != fp ==> s'.byFingerprint[x] == s.byFingerprint[x])
  }

  lemma DecidedAccounts(s: Store, m: Match, e: Fingerprint)
    requires Valid(s) && FingerprintOf(m) !in s.byFingerprint
    requires FingerprintOf(m).core in s.byCore && e in s.byCore[FingerprintOf(m).core]
    requires Decisive(s, m, e) && !Absorbs(s, m)
    ensures GivesWay(s, m, e) && Accounts(s, m, Decided(s, m, e), {e})
    ensures Decided(s, m, e).byFingerprint[FingerprintOf(m)].vulnerability == m.vulnerability
    ensures Decided(s, m, e).byFingerprint[FingerprintOf(m)].pkg == m.pkg
  {
    DecisiveReplaces(s, m, e);
  }

  lemma UndecidedKeepsAll(s: Store, m: Match, x: Fingerprint)
    requires Valid(s) && GivesWay(s, m, x)
    ensures FingerprintOf(m).core in s.byCore && x in s.byCore[FingerprintOf(m).core] && Decisive(s, m, x)
  {
    assert Supersedes(m, Read(s, x));
  }

  /** The fingerprints that leave in one outcome of Add. */
  ghost function Gone(s: Store, s': Store): (fps: set<Fingerprint>) {
    s.byFingerprint.Keys - s'.byFingerprint.Keys
  }

  lemma OutcomeAccounts(s: Store, m: Match, mid: Store)
    requires Valid(s) && !Absorbs(s, m) && AddOrMergeOutcome(s, m, mid)
    ensures FingerprintOf(m) in s.byFingerprint ==> Accounts(s, m, mid, {})
    ensures FingerprintOf(m) !in s.byFingerprint ==>
              || (Accounts(s, m, mid, {}) && forall x :: !GivesWay(s, m, x))
              || exists e :: GivesWay(s, m, e) && Accounts(s, m, mid, {e})
    ensures FingerprintOf(m) !in s.byFingerprint ==>
              && FingerprintOf(m) in mid.byFingerprint
              && mid.byFingerprint[FingerprintOf(m)].vulnerability == m.vulnerability
              && mid.byFingerprint[FingerprintOf(m)].pkg == m.pkg
  {
    var fp := FingerprintOf(m);
    if fp !in s.byFingerprint {
      if fp.core in s.byCore && CoreOutcome(s, m, s.byCore[fp.core], mid, true) {
        var e :| e in s.byCore[fp.core] && Decisive(s, m, e) && mid == Decided(s, m, e);
        DecidedAccounts(s, m, e);
      } else {
        forall x ensures !GivesWay(s, m, x) {
          if GivesWay(s, m, x) { UndecidedKeepsAll(s, m, x); }
        }
      }
    }
  }

  /**
   Which live fingerprints one Add removes: none if the match's own fingerprint is live or no live
   match gives way to it, and else exactly one that gives way. All others keep their matches.
   */
  lemma StepRemovesExactly(s: Store, m: Match, s': Store)
    requires Valid(s) && Step(s, m, s') && !Absorbs(s, m)
    ensures Accounts(s, m, s', Gone(s, s'))
    ensures FingerprintOf(m) in s.byFingerprint || (forall x :: !GivesWay(s, m, x)) ==> Gone(s, s') == {}
    ensures FingerprintOf(m) !in s.byFingerprint && (exists x :: GivesWay(s, m, x)) ==>
              exists e :: GivesWay(s, m, e) && Gone(s, s') == {e}
  {
    var mid :| AddOrMergeOutcome(s, m, mid) && s' == Indexed(mid, m);
    OutcomeAccounts(s, m, mid);
    assert s'.byFingerprint == mid.byFingerprint;
    var fp := FingerprintOf(m);
    if Accounts(s, m, mid, {}) {
      assert Gone(s, s') == {};
    }
    if fp !in s.byFingerprint {
      if e :| GivesWay(s, m, e) && Accounts(s, m, mid, {e}) {
        assert Gone(s, s') == {e};
      }
    }
  }

  /** The match stored for a new fingerprint is about the new vulnerability record and package. */
  lemma StepStoresTheNewMatch(s: Store, m: Match, s': Store)
    requires Valid(s) && Step(s, m, s') && !Absorbs(s, m)
    ensures var fp := FingerprintOf(m);
            && fp in s'.byFingerprint
            && (fp !in s.byFingerprint ==>
                  s'.byFingerprint[fp].vulnerability == m.vulnerability && s'.byFingerprint[fp].pkg == m.pkg)
            && (fp in s.byFingerprint ==>
                  && s'.byFingerprint[fp].pkg == s.byFingerprint[fp].pkg
                  && s'.byFingerprint[fp].vulnerability ==
                     s.byFingerprint[fp].vulnerability.(related := s'.byFingerprint[fp].vulnerability.related))
  {
    var mid :| AddOrMergeOutcome(s, m, mid) && s' == Indexed(mid, m);
    OutcomeAccounts(s, m, mid);
  }

  // ----- whole runs

  /** No match of the run has the all-empty fingerprint. */
  ghost predicate Named(ms: seq<Match>) {
    forall i :: 0 <= i < |ms| ==> FingerprintOf(ms[i]) != EMPTY_FINGERPRINT
  }

  /** After any run of Add calls, under any map order, the invariant holds. */
  lemma {:induction false} RunIsValid(ms: seq<Match>, s: Store)
    requires AddReaches(EMPTY, ms, s) && Named(ms)
    ensures Valid(s)
    decreases |ms|
  {
    if ms != [] {
      var before := LastStep(Step, EMPTY, ms, s);
      RunIsValid(ms[..|ms| - 1], before);
      StepKeepsValid(before, ms[|ms| - 1], s);
    }
  }

  /** One of the matches has core c and carries the detail id. */
  ghost predicate Added(ms: seq<Match>, c: Core, id: string) {
    exists i :: 0 <= i < |ms| && FingerprintOf(ms[i]).core == c && id in Ids(ms[i].details)
  }

  ghost predicate CoreAdded(ms: seq<Match>, c: Core) {
    exists i :: 0 <= i < |ms| && FingerprintOf(ms[i]).core == c
  }

  lemma AddedSnoc(ms: seq<Match>, c: Core, id: string)
    requires ms != []
    ensures var front, last := ms[..|ms| - 1], ms[|ms| - 1];
            && (Added(ms, c, id) <==> Added(front, c, id) || (c == FingerprintOf(last).core && id in Ids(last.details)))
            && (CoreAdded(ms, c) <==> CoreAdded(front, c) || c == FingerprintOf(last).core)
  {
  }

  /** The detail ids held for a core are those of all matches added with it: nothing lost, nothing new. */
  lemma {:induction false} RunConservesDetails(ms: seq<Match>, s: Store, c: Core, id: string)
    requires AddReaches(EMPTY, ms, s) && Named(ms)
    ensures Holds(s, c, id) <==> Added(ms, c, id)
    decreases |ms|
  {
    if ms == [] {
      assert s.byFingerprint == map[];
    } else {
      var front, last := ms[..|ms| - 1], ms[|ms| - 1];
      var before := LastStep(Step, EMPTY, ms, s);
      RunConservesDetails(front, before, c, id);
      RunIsValid(front, before);
      StepConservesDetails(before, last, s, c, id);
      AddedSnoc(ms, c, id);
    }
  }

  /** A core is held exactly when a match with that core was added: none ever disappears. */
  lemma {:induction false} RunConservesCores(ms: seq<Match>, s: Store, c: Core)
    requires AddReaches(EMPTY, ms, s) && Named(ms)
    ensures HasCore(s, c) <==> CoreAdded(ms, c)
    decreases |ms|
  {
    if ms == [] {
      assert s.byFingerprint == map[];
    } else {
      var front, last := ms[..|ms| - 1], ms[|ms| - 1];
      var before := LastStep(Step, EMPTY, ms, s);
      RunConservesCores(front, before, c);
      RunIsValid(front, before);
      StepConservesCores(before, last, s, c);
      AddedSnoc(ms, c, "");
    }
  }

  // ----- the one run that loses a match

  function Sample(fixes: seq<string>, ty: MatchType, id: string): (m: Match) {
    Match(NO_VULNERABILITY.(fixVersions := fixes), NO_PACKAGE, [Detail(ty, 1.0, id)])
  }

  const FIRST := Sample(["1"], ExactIndirect, "a")
  const SECOND := Sample(["2"], ExactDirect, "b")
  const THIRD := Sample([], Cpe, "c")

  lemma SampleFingerprints()
    ensures FingerprintOf(FIRST) == Fingerprint(EMPTY_FINGERPRINT.core, "1")
    ensures FingerprintOf(SECOND) == Fingerprint(EMPTY_FINGERPRINT.core, "2")
    ensures FingerprintOf(THIRD) == EMPTY_FINGERPRINT
  {
  }

  /** The store after the first match, as far as the later steps depend on it. */
  ghost predicate AfterFirst(s: Store) {
    && s.byFingerprint == map[FingerprintOf(FIRST) := FIRST]
    && EMPTY_FINGERPRINT.core in s.byCore && FingerprintOf(FIRST) in s.byCore[EMPTY_FINGERPRINT.core]
  }

  ghost predicate AfterSecond(s: Store) {
    && s.byFingerprint.Keys == {FingerprintOf(SECOND)}
    && EMPTY_FINGERPRINT.core in s.byCore && FingerprintOf(FIRST) in s.byCore[EMPTY_FINGERPRINT.core]
    && s.byFingerprint[FingerprintOf(SECOND)].details == Sort(DetailLess, SECOND.details + FIRST.details)
  }

  lemma FirstStep() returns (s: Store)
    ensures Step(EMPTY, FIRST, s) && AfterFirst(s)
  {
    SampleFingerprints();
    s := Indexed(Stored(EMPTY, FIRST), FIRST);
    assert AddOrMergeOutcome(EMPTY, FIRST, Stored(EMPTY, FIRST));
  }

  lemma SecondSupersedes()
    ensures Supersedes(SECOND, FIRST)
  {
    assert SECOND.details[0] in SECOND.details;
  }

  ghost function AfterReplace(s: Store): (mid: Store) {
    Replaced(s, SECOND, FingerprintOf(FIRST), FingerprintOf(SECOND), FIRST.details)
  }

  lemma SecondReplacesFirst(s: Store)
    requires AfterFirst(s)
    ensures AddOrMergeOutcome(s, SECOND, AfterReplace(s))
  {
    SampleFingerprints();
    SecondSupersedes();
    var fp := FingerprintOf(FIRST);
    assert Decisive(s, SECOND, fp) && AfterReplace(s) == Decided(s, SECOND, fp);
  }

  lemma SecondStep(s: Store) returns (s': Store)
    requires AfterFirst(s)
    ensures Step(s, SECOND, s') && AfterSecond(s')
  {
    SampleFingerprints();
    SecondReplacesFirst(s);
    s' := Indexed(AfterReplace(s), SECOND);
  }

  lemma ThirdStep(s: Store) returns (s': Store)
    requires AfterSecond(s)
    ensures Step(s, THIRD, s') && s'.byFingerprint == s.byFingerprint
  {
    SampleFingerprints();
    EmptyFingerprint();
    var fp := FingerprintOf(FIRST);
    assert Decisive(s, THIRD, fp) && Decided(s, THIRD, fp) == s;
    assert AddOrMergeOutcome(s, THIRD, s);
    s' := Indexed(s, THIRD);
  }

  lemma ThirdIsNotHeld(s: Store, s': Store)
    requires AfterSecond(s) && s'.byFingerprint == s.byFingerprint
    ensures !Holds(s', EMPTY_FINGERPRINT.core, "c")
  {
    SortedIds(SECOND.details + FIRST.details);
    AppendedIds(SECOND.details, FIRST.details);
  }

  /**
   Three matches without any identifier: the second supersedes the first and leaves its fingerprint
   stale, and the third, whose fingerprint is all empty, can be absorbed there. Its detail is lost.
   */
  lemma EmptyFingerprintIsLost() returns (s: Store)
    ensures AddReaches(EMPTY, [FIRST, SECOND, THIRD], s)
    ensures Added([FIRST, SECOND, THIRD], EMPTY_FINGERPRINT.core, "c")
    ensures !Holds(s, EMPTY_FINGERPRINT.core, "c")
  {
    var s1 := FirstStep();
    var s2 := SecondStep(s1);
    s := ThirdStep(s2);
    ThreeSteps(Step, EMPTY, FIRST, s1, SECOND, s2, THIRD, s);
    ThirdIsNotHeld(s2, s);
    assert Added([FIRST, SECOND, THIRD], EMPTY_FINGERPRINT.core, "c") by {
      SampleFingerprints();
      assert [FIRST, SECOND, THIRD][2] == THIRD && THIRD.details[0] in THIRD.details;
    }
  }

  // ----- the code

  class Matches {
    var byFingerprint: map<Fingerprint, Match>
    var byCoreFingerprint: map<Core, set<Fingerprint>>
    var byPackage: map<string, set<Fingerprint>>

    ghost function State(): (s: Store)
      reads this
    {
      Store(byFingerprint, byCoreFingerprint, byPackage)
    }

    constructor ()
      ensures State() == EMPTY
    {
      byFingerprint, byCoreFingerprint, byPackage := map[], map[], map[];
    }

    /** Add performs one step per match. */
    method Add(matches: seq<Match>)
      modifies this
      ensures AddReaches(old(State()), matches, State())
    {
      ghost var from := State();
      var i := 0;
      while i < |matches|
        invariant 0 <= i <= |matches|
        invariant AddReaches(from, matches[..i], State())
      {
        AddNext(from, matches[..i], matches[i]);
        assert matches[..i + 1] == matches[..i] + [matches[i]];
        i := i + 1;
      }
      assert matches[..i] == matches;
    }

    method AddNext(ghost from: Store, ghost done: seq<Match>, newMatch: Match)
      requires AddReaches(from, done, State())
      modifies this
      ensures AddReaches(from, done + [newMatch], State())
    {
      ghost var before := State();
      AddOne(newMatch);
      ReachesNext(Step, from, done, before, newMatch, State());
    }

    /** One round of Add. */
    method AddOne(newMatch: Match)
      modifies this
      ensures Step(old(State()), newMatch, State())
    {
      var newFp := FingerprintOf(newMatch);
      AddOrMerge(newMatch, newFp);
      TrackCommonElements(newMatch, newFp);
    }

    method TrackCommonElements(newMatch: Match, newFp: Fingerprint)
      requires newFp == FingerprintOf(newMatch)
      modifies this
      ensures State() == Indexed(old(State()), newMatch)
    {
      if newFp.core !in byCoreFingerprint {
        byCoreFingerprint := byCoreFingerprint[newFp.core := {}];
      }
      byCoreFingerprint := byCoreFingerprint[newFp.core := byCoreFingerprint[newFp.core] + {newFp}];
      if newMatch.pkg.id !in byPackage {
        byPackage := byPackage[newMatch.pkg.id := {}];
      }
      byPackage := byPackage[newMatch.pkg.id := byPackage[newMatch.pkg.id] + {newFp}];
    }

    method AddOrMerge(newMatch: Match, newFp: Fingerprint)
      requires newFp == FingerprintOf(newMatch)
      modifies this
      ensures AddOrMergeOutcome(old(State()), newMatch, State())
    {
      if newFp in byFingerprint {
        byFingerprint := byFingerprint[newFp := MergedInto(byFingerprint[newFp], newMatch)];
      } else if newFp.core in byCoreFingerprint {
        var merged := MergeCoreMatches(newMatch, newFp, byCoreFingerprint[newFp.core]);
        if !merged {
          byFingerprint := byFingerprint[newFp := newMatch];
        }
      } else {
        byFingerprint := byFingerprint[newFp := newMatch];
      }
    }

    /** One round of the loop over existing fingerprints. */
    method TryExisting(newMatch: Match, newFp: Fingerprint, e: Fingerprint) returns (merged: bool)
      requires newFp == FingerprintOf(newMatch)
      modifies this
      ensures merged <==> Decisive(old(State()), newMatch, e)
      ensures State() == if merged then Decided(old(State()), newMatch, e) else old(State())
    {
      var existingMatch := if e in byFingerprint then byFingerprint[e] else ZERO_MATCH;
      if Supersedes(newMatch, existingMatch) {
        var replaced := Replace(newMatch, e, newFp, existingMatch.details);
        if replaced { return true; }
        existingMatch := existingMatch.(details := existingMatch.details + newMatch.details);
      }
      return Merge(existingMatch, newMatch).Some?;
    }

    /** The loop over existing fingerprints, in an arbitrary order. */
    method MergeCoreMatches(newMatch: Match, newFp: Fingerprint, existing: set<Fingerprint>) returns (merged: bool)
      requires newFp == FingerprintOf(newMatch)
      modifies this
      ensures CoreOutcome(old(State()), newMatch, existing, State(), merged)
    {
      var rest := existing;
      while rest != {}
        invariant rest <= existing && State() == old(State())
        invariant forall e :: e in existing && e !in rest ==> !Decisive(old(State()), newMatch, e)
        decreases rest
      {
        var e :| e in rest;
        merged := TryExisting(newMatch, newFp, e);
        if merged { return; }
        rest := rest - {e};
      }
      return false;
    }

    method Replace(m: Match, ogFp: Fingerprint, newFp: Fingerprint, extra: seq<Detail>) returns (ok: bool)
      modifies this
      ensures ok <==> ogFp.core == newFp.core
      ensures State() == if ok then Replaced(old(State()), m, ogFp, newFp, extra) else old(State())
    {
      if ogFp.core != newFp.core { return false; }
      var todo := byPackage.Keys;
      while todo != {}
        invariant todo <= byPackage.Keys == old(byPackage).Keys
        invariant byFingerprint == old(byFingerprint) && byCoreFingerprint == old(byCoreFingerprint)
        invariant forall p :: p in todo ==> byPackage[p] == old(byPackage)[p]
        invariant forall p :: p in byPackage && p !in todo ==> byPackage[p] == Moved(old(byPackage)[p], ogFp, newFp)
        decreases todo
      {
        var p :| p in todo;
        if ogFp in byPackage[p] {
          byPackage := byPackage[p := byPackage[p] - {ogFp} + {newFp}];
        }
        todo := todo - {p};
      }
      byFingerprint := byFingerprint - {ogFp};
      byFingerprint := byFingerprint[newFp := m.(details := Sort(DetailLess, m.details + extra))];
      return true;
    }

    /** What the fingerprint map holds for the given fingerprints, the zero match where it holds nothing. */
    method ReadAll(fps: set<Fingerprint>) returns (matches: seq<Match>)
      ensures |matches| == |fps|
      ensures forall m :: m in matches <==> exists fp :: fp in fps && Read(State(), fp) == m
    {
      matches := [];
      var rest := fps;
      while rest != {}
        invariant rest <= fps && |matches| == |fps| - |rest|
        invariant forall m :: m in matches <==> exists fp :: fp in fps - rest && Read(State(), fp) == m
        decreases rest
      {
        var fp :| fp in rest;
        matches := matches + [if fp in byFingerprint then byFingerprint[fp] else ZERO_MATCH];
        assert fps - (rest - {fp}) == (fps - rest) + {fp};
        rest := rest - {fp};
      }
      assert fps - rest == fps;
    }

    /**
     The matches of one package: in a valid collection exactly the live ones, each once. In any
     collection there is one match for each fingerprint filed under the package.
     */
    method GetByPkgID(id: string) returns (matches: seq<Match>)
      ensures |matches| == |Filed(State(), id)|
      ensures forall m :: m in matches <==> exists fp :: fp in Filed(State(), id) && Read(State(), fp) == m
      ensures Valid(State()) ==>
                && (forall m :: m in matches <==>
                                  exists fp :: fp in byFingerprint && byFingerprint[fp] == m && m.pkg.id == id)
                && |matches| == |set fp | fp in byFingerprint && fp.core.packageID == id|
    {
      var fps := if id in byPackage then byPackage[id] else {};
      matches := ReadAll(fps);
      if Valid(State()) {
        FiledAreLive(State(), id);
      }
    }
  }
}
