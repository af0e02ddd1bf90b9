/**
 Whole RPM versions: epoch, version and release. Parsing and printing them, and comparing them
 with the different treatments of a missing epoch.
 */
module RpmVersions {
  import opened Decimal
  import opened Order
  import opened Prelude
  import opened Rpm

  datatype Version = Version(epoch: Option<int>, version: string, release: string)

  // ----- parsing and printing

  /** The index of the first c in s, or |s|. */
  function IndexOf(s: string, c: char): (k: nat)
    ensures k <= |s| && c !in s[..k]
    ensures k < |s| ==> s[k] == c
  {
    if s == "" || s[0] == c then 0
    else
      var k := 1 + IndexOf(s[1..], c);
      assert s[..k] == [s[0]] + s[1..][..k - 1];
      k
  }

  lemma {:induction false} IndexOfIs(s: string, c: char, k: nat)
    requires k <= |s| && c !in s[..k] && (k < |s| ==> s[k] == c)
    ensures IndexOf(s, c) == k
  {
    if k > 0 {
      assert s[0] == s[..k][0];
      assert forall x :: x in s[1..][..k - 1] ==> x in s[..k];
      IndexOfIs(s[1..], c, k - 1);
    }
  }

  function TrimLeftSpaces(s: string): (t: string) {
    if s != "" && s[0] == ' ' then TrimLeftSpaces(s[1..]) else s
  }

  datatype EpochSplit = EpochSplit(epoch: Option<int>, rest: string)

  /** splitEpochFromVersion: None is the parse error. */
  function SplitEpoch(raw: string): (r: Option<EpochSplit>) {
    var k := IndexOf(raw, ':');
    if k == |raw| then Some(EpochSplit(None, raw))
    else
      var epoch := Atoi(TrimLeftSpaces(raw[..k]));
      if epoch.None? then None else Some(EpochSplit(epoch, raw[k + 1..]))
  }

  /** The version ends at the first dash, the release is the rest. */
  function FromSplit(split: EpochSplit): (v: Version) {
    var k := IndexOf(split.rest, '-');
    Version(split.epoch, split.rest[..k], if k < |split.rest| then split.rest[k + 1..] else "")
  }

  /** newRpmVersion. */
  function Parse(raw: string): (r: Option<Version>) {
    var split := SplitEpoch(raw);
    if split.None? then None else Some(FromSplit(split.value))
  }

  function PrintBody(v: Version): (s: string) {
    if v.release != "" then v.version + "-" + v.release else v.version
  }

  function Print(v: Version): (s: string) {
    if v.epoch.Some? then PrintInt(v.epoch.value) + ":" + PrintBody(v) else PrintBody(v)
  }

  /** The versions a string can denote. */
  predicate Denotable(v: Version) {
    && '-' !in v.version
    && (v.epoch.Some? ==> MIN_INT <= v.epoch.value <= MAX_INT)
    && (v.epoch.None? ==> ':' !in v.version && ':' !in v.release)
  }

  lemma ParsedIsDenotable(raw: string)
    requires Parse(raw).Some?
    ensures Denotable(Parse(raw).value)
  {
    var k := IndexOf(raw, ':');
    if k == |raw| {
      assert raw[..k] == raw;
    }
  }

  lemma PrintedEpochIsPlain(n: int)
    ensures PrintInt(n) != "" && ':' !in PrintInt(n) && TrimLeftSpaces(PrintInt(n)) == PrintInt(n)
  {
    var digits := PrintNat(if n < 0 then -n else n);
    assert forall i :: 0 <= i < |digits| ==> IsDigit(digits[i]);
  }

  lemma SplitAtColon(e: string, n: int, rest: string)
    requires MIN_INT <= n <= MAX_INT && e == PrintInt(n)
    ensures SplitEpoch(e + ":" + rest) == Some(EpochSplit(Some(n), rest))
  {
    var s := e + ":" + rest;
    PrintedEpochIsPlain(n);
    AtoiOfPrintInt(n);
    assert s[..|e|] == e && s[|e|] == ':' && s[|e| + 1..] == rest;
    IndexOfIs(s, ':', |e|);
  }

  lemma SplitOfPrinted(v: Version)
    requires Denotable(v)
    ensures SplitEpoch(Print(v)) == Some(EpochSplit(v.epoch, PrintBody(v)))
  {
    if v.epoch.Some? {
      SplitAtColon(PrintInt(v.epoch.value), v.epoch.value, PrintBody(v));
    } else {
      var s := PrintBody(v);
      assert ':' !in s;
      assert s[..|s|] == s;
      IndexOfIs(s, ':', |s|);
    }
  }

  lemma PrintedParsesBack(v: Version)
    requires Denotable(v)
    ensures Parse(Print(v)) == Some(v)
  {
    SplitOfPrinted(v);
    var rest := PrintBody(v);
    assert rest[..|v.version|] == v.version;
    IndexOfIs(rest, '-', |v.version|);
    if v.release != "" {
      assert rest[|v.version| + 1..] == v.release;
    }
  }

  /** A version survives printing and parsing exactly when some string denotes it. */
  lemma PrintParseExact(v: Version)
    ensures Parse(Print(v)) == Some(v) <==> Denotable(v)
  {
    if Denotable(v) {
      PrintedParsesBack(v);
    } else if Parse(Print(v)) == Some(v) {
      ParsedIsDenotable(Print(v));
    }
  }

  /** For every string that parses, print and parse again gives the same version. */
  lemma ParsePrintParse(raw: string)
    requires Parse(raw).Some?
    ensures Parse(Print(Parse(raw).value)) == Parse(raw)
  {
    ParsedIsDenotable(raw);
    PrintedParsesBack(Parse(raw).value);
  }

  lemma FirstColon(raw: string)
    requires ':' in raw
    ensures var k := IndexOf(raw, ':');
            k < |raw| && IndexOf([' '] + raw, ':') == k + 1
            && ([' '] + raw)[..k + 1] == [' '] + raw[..k] && ([' '] + raw)[k + 2..] == raw[k + 1..]
  {
    var k := IndexOf(raw, ':');
    assert raw[..|raw|] == raw;
    ShiftedSlices(raw, k);
    IndexOfIs([' '] + raw, ':', k + 1);
  }

  lemma ShiftedSlices(raw: string, k: nat)
    requires k < |raw|
    ensures ([' '] + raw)[..k + 1] == [' '] + raw[..k]
    ensures ([' '] + raw)[k + 1] == raw[k] && ([' '] + raw)[k + 2..] == raw[k + 1..]
  {
  }

  lemma OneSpace(s: string)
    ensures TrimLeftSpaces([' '] + s) == TrimLeftSpaces(s)
  {
    assert ([' '] + s)[1..] == s;
  }

  lemma SameSplitSameVersion(a: string, b: string)
    requires SplitEpoch(a) == SplitEpoch(b)
    ensures Parse(a) == Parse(b)
  {
  }

  /** Spaces before the epoch are skipped. */
  lemma SpaceBeforeEpochIsSkipped(raw: string)
    requires ':' in raw
    ensures Parse([' '] + raw) == Parse(raw)
  {
    FirstColon(raw);
    OneSpace(raw[..IndexOf(raw, ':')]);
    SameSplitSameVersion([' '] + raw, raw);
  }

  lemma NoneBefore(s: string, c: char, t: string)
    requires c !in s
    ensures IndexOf(s + [c] + t, c) == |s| && IndexOf(s, c) == |s|
  {
    var all := s + [c] + t;
    assert all[..|s|] == s && s[..|s|] == s;
    IndexOfIs(all, c, |s|);
    IndexOfIs(s, c, |s|);
  }

  /** A dash separates version and release, a colon the epoch from the rest. */
  lemma SeparatorsSplit(e: string, version: string, release: string)
    requires '-' !in version && ':' !in e
    ensures FromSplit(EpochSplit(None, version + ['-'] + release)) == Version(None, version, release)
    ensures FromSplit(EpochSplit(None, version)) == Version(None, version, "")
    ensures Atoi(TrimLeftSpaces(e)).Some? ==>
              SplitEpoch(e + [':'] + version) == Some(EpochSplit(Atoi(TrimLeftSpaces(e)), version))
    ensures Atoi(TrimLeftSpaces(e)).None? ==> SplitEpoch(e + [':'] + version) == None
    ensures SplitEpoch(e) == Some(EpochSplit(None, e))
  {
    var body := version + ['-'] + release;
    NoneBefore(version, '-', release);
    NoneBefore(e, ':', version);
    assert body[..|version|] == version && body[|version| + 1..] == release && version[..|version|] == version;
    var all := e + [':'] + version;
    assert all[..|e|] == e && all[|e| + 1..] == version;
  }

  // ----- comparison

  function EpochOrder(v: Version, w: Version): (r: int) {
    if v.epoch.Some? && w.epoch.Some? then CompareInt(v.epoch.value, w.epoch.value) else 0
  }

  function BodyOrder(v: Version, w: Version): (r: int) {
    Then(RpmOrder(v.version, w.version), RpmOrder(v.release, w.release))
  }

  /** rpmVersion.compare: an epoch counts only when both sides have one. */
  function Compare(v: Version, w: Version): (r: int) {
    if v == w then 0 else Then(EpochOrder(v, w), BodyOrder(v, w))
  }

  /** The shortcut for equal versions changes nothing, and swapping the sides flips the sign. */
  lemma CompareAntisymmetric(v: Version, w: Version)
    ensures Compare(v, w) == Then(EpochOrder(v, w), BodyOrder(v, w))
    ensures -1 <= Compare(v, w) <= 1 && Compare(v, w) == -Compare(w, v)
  {
    RpmOrderAntisymmetric(v.version, w.version);
    RpmOrderAntisymmetric(v.release, w.release);
  }

  /** Epochs that both sides have decide first, then the version strings, then the releases. */
  lemma EpochThenVersionThenRelease(v: Version, w: Version)
    ensures v.epoch.Some? && w.epoch.Some? && v.epoch.value < w.epoch.value ==> Compare(v, w) == -1
    ensures v.epoch == w.epoch || v.epoch.None? || w.epoch.None? ==>
              Compare(v, w) == if RpmOrder(v.version, w.version) != 0 then RpmOrder(v.version, w.version)
                               else RpmOrder(v.release, w.release)
  {
    CompareAntisymmetric(v, w);
  }

  predicate Regular(v: Version) {
    NoTrailingZero(Segments(v.version)) && NoTrailingZero(Segments(v.release))
  }

  lemma BodyTies(v: Version, w: Version)
    requires Regular(v) && Regular(w) && BodyOrder(v, w) <= 0
    ensures RpmOrder(v.version, w.version) <= 0
    ensures RpmOrder(w.version, v.version) <= 0 ==> RpmOrder(v.release, w.release) <= 0
  {
    RpmOrderAntisymmetric(v.version, w.version);
  }

  /** Transitive on versions that all have, or all lack, an epoch and have no trailing zero segment. */
  lemma CompareTransitive(u: Version, v: Version, w: Version)
    requires u.epoch.Some? == v.epoch.Some? == w.epoch.Some?
    requires Regular(u) && Regular(v) && Regular(w)
    requires Compare(u, v) <= 0 && Compare(v, w) <= 0
    ensures Compare(u, w) <= 0
  {
    CompareAntisymmetric(u, v);
    CompareAntisymmetric(v, w);
    CompareAntisymmetric(u, w);
    if EpochOrder(u, v) == 0 && EpochOrder(v, w) == 0 {
      BodyTies(u, v);
      BodyTies(v, w);
      NoTrailingZeroTransitive(u.version, v.version, w.version);
      RpmOrderAntisymmetric(u.version, w.version);
      if RpmOrder(u.version, w.version) == 0 {
        NoTrailingZeroTransitive(v.version, w.version, u.version);
        NoTrailingZeroTransitive(w.version, u.version, v.version);
        NoTrailingZeroTransitive(u.release, v.release, w.release);
      }
    }
  }

  /** The regular versions with an epoch, together with one more version. */
  ghost predicate InDomain(v: Version, extra: Version) {
    (Regular(v) && v.epoch.Some?) || v == extra
  }

  /** A string without a trailing zero segment that ties with s, s itself if it has none. */
  lemma RegularTwin(s: string) returns (t: string)
    ensures NoTrailingZero(Segments(t)) && RpmOrder(s, t) == 0
  {
    if NoTrailingZero(Segments(s)) {
      t := s;
      RpmOrderAntisymmetric(s, s);
    } else {
      var y;
      y, t := TrailingZeroBreaks(s);
      RpmOrderAntisymmetric(s, t);
    }
  }

  /** Three versions of the domain that break transitivity: a <= b <= c, and yet a > c. */
  ghost predicate Breaks(extra: Version, a: Version, b: Version, c: Version) {
    && InDomain(a, extra) && InDomain(b, extra) && InDomain(c, extra)
    && Compare(a, b) <= 0 && Compare(b, c) <= 0 && Compare(a, c) > 0
  }

  /** A trailing zero segment of the version or the release breaks transitivity under every epoch. */
  lemma IrregularBreaks(x: Version) returns (a: Version, b: Version, c: Version)
    requires !Regular(x)
    ensures Breaks(x, a, b, c)
  {
    var e := if x.epoch.Some? then x.epoch else Some(0);
    if NoTrailingZero(Segments(x.version)) {
      var y, z := TrailingZeroBreaks(x.release);
      RpmOrderAntisymmetric(x.version, x.version);
      RpmOrderAntisymmetric(x.release, z);
      RpmOrderAntisymmetric(z, y);
      a, b, c := x, Version(e, x.version, z), Version(e, x.version, y);
    } else {
      var y, z := TrailingZeroBreaks(x.version);
      var release := RegularTwin(x.release);
      RpmOrderAntisymmetric(x.version, z);
      RpmOrderAntisymmetric(z, y);
      a, b, c := x, Version(e, z, release), Version(e, y, "");
    }
  }

  lemma LongerBy(s: string, seg: Segment) returns (t: string)
    requires NoTrailingZero(Segments(s)) && seg != ZERO
    ensures NoTrailingZero(Segments(t)) && RpmOrder(t, s) == if seg == Tilde then -1 else 1
  {
    var segs := Segments(s);
    t := Render(segs + [seg]);
    SegmentsOfRender(segs + [seg]);
    SkipPrefix(segs, [seg], []);
    assert segs + [] == segs;
  }

  /** A version without an epoch fits below a version of epoch 1 and above one of epoch 0. */
  lemma MissingEpochBreaks(x: Version) returns (a: Version, b: Version, c: Version)
    requires Regular(x) && x.epoch.None?
    ensures Breaks(x, a, b, c)
  {
    var below := LongerBy(x.version, Tilde);
    var above := LongerBy(x.version, Number("1"));
    RpmOrderAntisymmetric(x.version, above);
    a, b, c := Version(Some(1), below, ""), x, Version(Some(0), above, "");
  }

  /**
   The domain is maximal: adding one more version to the regular versions with an epoch keeps the
   comparison transitive exactly when that version is regular and has an epoch.
   */
  lemma CompareDomainIsMaximal(x: Version)
    ensures Regular(x) && x.epoch.Some? <==>
            forall a, b, c | InDomain(a, x) && InDomain(b, x) && InDomain(c, x) ::
              Compare(a, b) <= 0 && Compare(b, c) <= 0 ==> Compare(a, c) <= 0
  {
    if Regular(x) && x.epoch.Some? {
      forall a, b, c | InDomain(a, x) && InDomain(b, x) && InDomain(c, x)
                       && Compare(a, b) <= 0 && Compare(b, c) <= 0
        ensures Compare(a, c) <= 0
      {
        CompareTransitive(a, b, c);
      }
    } else {
      var a, b, c;
      if Regular(x) {
        a, b, c := MissingEpochBreaks(x);
      } else {
        a, b, c := IrregularBreaks(x);
      }
      assert Compare(a, b) <= 0 && Compare(b, c) <= 0 && Compare(a, c) > 0;
    }
  }

  /** What one-digit strings mean: how they compare as versions, and how they print as epochs. */
  lemma OneDigit(d: char, d': char)
    requires IsDigit(d) && IsDigit(d')
    ensures RpmOrder([d], [d']) == CompareInt((d - '0') as int, (d' - '0') as int)
    ensures PrintInt((d - '0') as int) == [d]
  {
    assert Render([Number([d])]) == [d] && Render([Number([d'])]) == [d'];
    SegmentsOfRender([Number([d])]);
    SegmentsOfRender([Number([d'])]);
    assert [d][..0] == "" && [d'][..0] == "";
    assert SegmentOrder(Number([d]), Number([d'])) == CompareInt((d - '0') as int, (d' - '0') as int);
    assert SegmentsOrder([], []) == 0;
  }

  /** Epoch and version of one digit each. */
  lemma ParsesDigits(e: char, d: char)
    requires IsDigit(e) && IsDigit(d)
    ensures Parse([e] + ":" + [d]) == Some(Version(Some((e - '0') as int), [d], ""))
    ensures Parse([d]) == Some(Version(None, [d], ""))
  {
    var with, without := Version(Some((e - '0') as int), [d], ""), Version(None, [d], "");
    OneDigit(e, d);
    PrintedParsesBack(with);
    PrintedParsesBack(without);
    assert Print(with) == [e] + ":" + [d] && Print(without) == [d];
  }

  lemma MixedTriple(p: char, q: char, r: char)
    requires IsDigit(p) && IsDigit(q) && IsDigit(r) && p < q < r
    ensures var a, b, c := Version(Some(1), [p], ""), Version(None, [q], ""), Version(Some(0), [r], "");
            && Parse(['1'] + ":" + [p]) == Some(a) && Parse([q]) == Some(b) && Parse(['0'] + ":" + [r]) == Some(c)
            && Compare(a, b) == -1 && Compare(b, c) == -1 && Compare(a, c) == 1
  {
    ParsesDigits('1', p);
    ParsesDigits('0', q);
    ParsesDigits('0', r);
    OneDigit(p, q);
    OneDigit(q, r);
  }

  /** A concrete break with a mixed triple: 1:1 < 2 < 0:3, yet 1:1 > 0:3. */
  lemma MixedEpochsBreak()
    ensures var a, b, c := Parse("1:1"), Parse("2"), Parse("0:3");
            && a.Some? && b.Some? && c.Some?
            && Compare(a.value, b.value) == -1 && Compare(b.value, c.value) == -1 && Compare(a.value, c.value) == 1
  {
    MixedTriple('1', '2', '3');
    assert ['1'] + ":" + ['1'] == "1:1" && ['0'] + ":" + ['3'] == "0:3";
  }

  datatype Strategy = Unset | Zero | Auto

  /** rpmVersion.CompareWithConfig: v is the package side, w the constraint side. */
  function CompareWithConfig(v: Version, w: Version, strategy: Strategy): (r: int) {
    if v == w then 0
    else if v.epoch.None? && w.epoch.Some? && strategy == Auto then Compare(v.(epoch := w.epoch), w)
    else if v.epoch.None? && w.epoch.Some? && strategy == Zero then Compare(v.(epoch := Some(0)), w)
    else Compare(v, w)
  }

  function ZeroIfMissing(v: Version): (w: Version) {
    if v.epoch.None? then v.(epoch := Some(0)) else v
  }

  /**
   What the documentation says: a constraint without an epoch has epoch 0, and a package without one
   has the constraint's epoch under the auto strategy and epoch 0 under the zero strategy.
   */
  function CompareAsDocumented(v: Version, w: Version, strategy: Strategy): (r: int) {
    var w' := ZeroIfMissing(w);
    Compare(if v.epoch.None? && strategy == Auto then v.(epoch := w'.epoch) else ZeroIfMissing(v), w')
  }

  /** The epoch of a package is ignored when the constraint has none. */
  lemma PackageEpochIsIgnored(v: Version, w: Version, strategy: Strategy)
    requires w.epoch.None?
    ensures CompareWithConfig(v, w, strategy) == BodyOrder(v, w)
  {
    CompareAntisymmetric(v, w);
  }

  /**
   Under either strategy the code does what is documented for all versions with epochs e and f, the
   package's and the constraint's, exactly unless e is a non-zero epoch and f is missing.
   */
  lemma MissingEpochExact(e: Option<int>, f: Option<int>, strategy: Strategy)
    requires strategy != Unset
    ensures (forall v: Version, w: Version | v.epoch == e && w.epoch == f ::
               CompareWithConfig(v, w, strategy) == CompareAsDocumented(v, w, strategy))
            <==> !(e.Some? && e.value != 0 && f.None?)
  {
    if e.Some? && e.value != 0 && f.None? {
      var v, w := Version(e, "", ""), Version(f, "", "");
      PackageEpochIsIgnored(v, w, strategy);
      RpmOrderAntisymmetric("", "");
      assert CompareWithConfig(v, w, strategy) != CompareAsDocumented(v, w, strategy);
    } else {
      forall v: Version, w: Version | v.epoch == e && w.epoch == f
        ensures CompareWithConfig(v, w, strategy) == CompareAsDocumented(v, w, strategy)
      {
        CompareAntisymmetric(v, w);
        CompareAntisymmetric(ZeroIfMissing(v), ZeroIfMissing(w));
        CompareAntisymmetric(v.(epoch := w.epoch), w);
        CompareAntisymmetric(v.(epoch := Some(0)), w);
      }
    }
  }

  lemma IgnoredEpoch(d: char, strategy: Strategy)
    requires IsDigit(d) && strategy != Unset
    ensures var v, w := Version(Some(1), [d], ""), Version(None, [d], "");
            && Parse(['1'] + ":" + [d]) == Some(v) && Parse([d]) == Some(w)
            && CompareWithConfig(v, w, strategy) == 0 && CompareAsDocumented(v, w, strategy) == 1
  {
    ParsesDigits('1', d);
    RpmOrderAntisymmetric([d], [d]);
    RpmOrderAntisymmetric("", "");
  }

  /** The package 1:2 ties with the constraint 2; documented is that it is newer. */
  lemma MissingEpochWitness(strategy: Strategy)
    requires strategy != Unset
    ensures var v, w := Parse("1:2"), Parse("2");
            && v.Some? && w.Some?
            && CompareWithConfig(v.value, w.value, strategy) == 0
            && CompareAsDocumented(v.value, w.value, strategy) == 1
  {
    IgnoredEpoch('2', strategy);
    assert ['1'] + ":" + ['2'] == "1:2";
  }

  /** With the zero strategy a package without an epoch has epoch 0 against a constraint that has one. */
  lemma ZeroStrategyUsesZero(v: Version, w: Version)
    requires v.epoch.None? && w.epoch.Some?
    ensures CompareWithConfig(v, w, Zero) == if w.epoch.value != 0 then CompareInt(0, w.epoch.value) else BodyOrder(v, w)
  {
    CompareAntisymmetric(v.(epoch := Some(0)), w);
  }

  /** With the auto strategy a package without an epoch is compared by version and release alone. */
  lemma AutoStrategyIgnoresMissing(v: Version, w: Version)
    requires v.epoch.None?
    ensures CompareWithConfig(v, w, Auto) == BodyOrder(v, w)
  {
    CompareAntisymmetric(v, w);
    CompareAntisymmetric(v.(epoch := w.epoch), w);
  }
}
