# Grype: version order, match collection, filtering and write path in Dafny

Grype decides whether an installed package version lies in a vulnerable range, merges the findings,
filters them by ignore rules, and writes vulnerability data into a database. This project models the
parts of that which are hard to settle by examples and proves what they promise for all inputs, all
runs and all map iteration orders.

| file | what it models |
|---|---|
| `Prelude.dfy` | shared definitions |
| `Order.dfy` | three-way comparators, total preorders, padded lexicographic order |
| `Decimal.dfy` | digit strings, text comparison, printing and reading integers |
| `Portage.dfy` | Gentoo version comparison |
| `Gem.dfy` | RubyGems canonical form and comparison |
| `Rpm.dfy`, `RpmVersions.dfy` | RPM segment comparison; whole RPM versions, their text form and missing epochs |
| `Fuzzy.dfy` | fuzzy comparison for unknown formats |
| `RangeExpressions.dfy` | scanning and evaluating range expressions; convexity of AND groups |
| `RangeFilter.dfy` | per-range filtering against one joined constraint |
| `Findings.dfy`, `Runs.dfy`, `Matches.dfy` | the collection of matches as a state machine |
| `Sorting.dfy`, `DetailOrder.dfy` | sorting, and when the sorted details of a match depend only on the details |
| `IgnoreIndex.dfy` | ignore rules and their index |
| `Criteria.dfy` | flattening of and/or search criteria |
| `IdCache.dfy` | write-through id caches and blob digests |
| `EsmMerge.dfy` | the Ubuntu ESM merge of disclosures and advisories |
| `Rootio.dfy` | the rootio package name codec |

How to read it: a function such as `KeyOrder`, `Groups`, `Rows` or `Batch` says what an operation means,
a method is the operation in the form the source has it and is proved to compute that function, and
lemmas prove what the source promises about the function.

## What the code does not do

Some promises hold only under a condition. Each entry names the lemma with the exact condition and the
lemma at a failing input.

- RPM comparison is not transitive: "1.0" > "1.a" > "1", yet "1" and "1.0" tie (`Rpm.NotTransitive`). It is a
  total preorder on the strings whose last segment is not a literal "0", and adding any other string breaks
  it (`Rpm.DomainIsMaximal`).
- Whole RPM versions are not transitive when epochs are mixed: 1:1 < 2 < 0:3, yet 1:1 > 0:3
  (`RpmVersions.MixedEpochsBreak`). They are on the versions that have an epoch and no trailing zero segment,
  and adding any other version breaks it (`RpmVersions.CompareDomainIsMaximal`).
- The documentation of the epoch strategies (grype/version/rpm_version.go:55-69) says that a constraint
  without an epoch is always treated as epoch 0. The code ignores the package's epoch then: 1:2 ties with the
  constraint 2 (`RpmVersions.MissingEpochWitness`). It does what is documented for given epochs exactly
  unless the package's is non-zero and the constraint's is missing (`RpmVersions.MissingEpochExact`). The
  model follows the code.
- A match whose fingerprint is all empty can be swallowed by a stale index entry and lost
  (`Matching.EmptyFingerprintIsLost`, `Matching.AddIsSafeExactly`).
- Details sort canonically exactly when at most one type occurs that is not one of the three registered ones
  (`DetailOrder.DetailsSortCanonically`, with a failing list in `DetailOrder.UnregisteredTypesAreUnstable`). No
  matcher of the repository sets a fourth type; a detail type is a string (grype/match/type.go:19), so only a
  matcher written outside the repository, or details read from elsewhere, can bring two of them in.
- The ignore index misses rules named by a regular expression and rules whose location is only an access path
  (`IgnoreIndex.MissedExactly`, with failing rules in `IgnoreIndex.RegexNameIsMissed` and
  `IgnoreIndex.AccessPathIsMissed`).
- An empty criteria list is met by everything but yields no row, and it is the only such list
  (`Criteria.FlatteningKeepsMeaning`).
- Per-range filtering and the joined constraint disagree exactly when only empty ranges match although some
  range has a text, or when a failing comparison in one range spoils the match of another
  (`RangeFilter.FilterDisagreesExactly`). The ranges "" and "<1" are such an input for a version above 1
  (`RangeFilter.EmptyRangeWitness`).
- The combined constraint of a kept ESM record fails to evaluate exactly when an advisory's constraint fails
  before any constraint accepts the version (`EsmMerge.KeptIsSatisfied`, with a failing record in
  `EsmMerge.FailingAdvisoryBlocks`).
- The fix state of an ESM record depends on the order of the advisories exactly when no advisory with a
  needed fix is fixed and two of those that set the state lead to different ones
  (`EsmMerge.OrderMattersExactly`, with two such advisories in `EsmMerge.UnshapedDependsOnOrder`). Advisories
  as toFix makes them never do. The v6 provider makes all of them that way; the dpkg matcher takes any
  provider (grype/matcher/dpkg/matcher.go:94-97), and one that passes stored fixes through unchanged, as the
  v5 conversion does (grype/db/v5/vulnerability.go:170-173), can hand over others.
- Some npm names do not survive prefixing and stripping (`Rootio.RoundTrip`), "a__b" and "@my__org/x" among
  them (`Rootio.UnscopedIsLost`, `Rootio.ScopedIsLost`).

## Model

| member | source | states |
|---|---|---|
| Order.LexFirstDifference | grype/version/gem_version.go:207-283 | padded lexicographic comparison is decided by the first index where the two infinite sequences differ, and is 0 when there is none |
| Order.LexIsPreorder | grype/version/gem_version.go:87-98 | padded lexicographic order over a total preorder is a total preorder |
| Decimal.CompareTrimmedIsNumeric | grype/version/rpm_version.go:236-256 | "trim zeros, the longer wins, else compare as text" is numeric comparison on all digit strings |
| Decimal.SameLengthTextIsNumeric | grype/version/fuzzy_constraint.go:139-156 | on digit strings of one length text order is numeric order |
| Decimal.AtoiOfPrintInt | grype/version/rpm_version.go:155-159 | reading a printed machine integer back gives that integer |
| Decimal.AtoiReads | grype/version/rpm_version.go:186-189 | an integer is digits with an optional sign whose value fits, and nothing else |
| Decimal.FirstCharacterDecides | grype/version/fuzzy_constraint.go:158-161 | text compares by the first character that differs, a proper prefix is smaller |
| Portage.RightPaddingIsPms | grype/version/portage_version.go:76-90 | right-padding with zeros and comparing integers gives the strip-trailing-zeros-then-ASCII result of section 3.3 of the Gentoo PMS, on all digit strings |
| Portage.ComponentOrderIsPreorder | grype/version/portage_version.go:57-91 | the component rule, with a missing component as bottom, is a total preorder although its two cases compare differently |
| Portage.KeyOrderIsPreorder | grype/version/portage_version.go:46-168 | the order on (major, components, letter, suffixes, revision) is reflexive, antisymmetric in sign and transitive |
| Portage.SuffixLadder | grype/version/portage_version.go:16 | whatever their numbers: alpha < beta < pre < rc < no suffix < p, after any version |
| Portage.SuffixNumberDecides | grype/version/portage_version.go:147-155 | within one suffix kind the number decides, an absent one being 0 |
| Portage.ComponentCases | grype/version/portage_version.go:69-90 | components compare by value, or as decimal fractions once one has a leading zero |
| Portage.ComponentsDecide | grype/version/portage_version.go:57-91 | more components are larger, and the first pair that differs decides |
| Portage.LettersAndMajorsDecide | grype/version/portage_version.go:93-117 | major numbers decide first; a letter beats none, later letters beat earlier ones, before any suffix |
| Portage.RevisionDecides | grype/version/portage_version.go:158-167 | versions that differ in the revision alone compare by its number, an absent one being 0 |
| Portage.ComponentPair | grype/version/portage_version.go:69-90 | the two integers of a component pair compare as the PMS rule says |
| Portage.BuildLists | grype/version/portage_version.go:57-91 | each position of the two integer lists compares as the components do, missing ones as bottom |
| Portage.CompareLists | grype/version/portage_version.go:105-117 | the list loop is lexicographic order with a proper prefix smaller |
| Portage.ListsCompareComponents | grype/version/portage_version.go:93-117 | comparing the integer lists compares the components first and then what follows them |
| Portage.CompareNumbers | grype/version/portage_version.go:49-117 | major number, components and letter decide in that order |
| Portage.CompareSuffix | grype/version/portage_version.go:137-155 | one suffix pair compares by kind value and then by number |
| Portage.CompareSuffixes | grype/version/portage_version.go:119-156 | the suffix loop is lexicographic order padded with ("p", -1) |
| Portage.ComparePortageVersions | grype/version/portage_version.go:46-168 | the comparison, which pads each pair differently, computes the one fixed key order |
| Gem.GemOrderIsPreorder | grype/version/gem_version.go:207-283 | zero-padded lexicographic order with strings below numbers is a total preorder |
| Gem.VersionOrderIsPreorder | grype/version/gem_version.go:87-98 | comparing gem versions through their canonical forms is a total preorder |
| Gem.CanonicalShape | grype/version/gem_version.go:56-64 | a canonical form is a lone zero or does not end in zero |
| Gem.CanonicalIdempotent | grype/version/gem_version.go:56-64 | canonicalising twice is canonicalising once |
| Gem.CanonicalTie | grype/version/gem_version.go:87-98 | on canonical forms the result is 0 exactly when the forms are identical |
| Gem.TrimmingTailKeepsOrder | grype/version/gem_version.go:137-161 | trimming trailing zeros does not move a version in the order |
| Gem.PrereleaseZerosDoNotCount | grype/version/gem_version.go:163-205 | for any numbers, any number of zeros and any rest that starts with a string: in a prerelease the version with and without the zeros has one canonical form and ties, in a release the zeros stay |
| Gem.FirstSegmentDecides | grype/version/gem_version.go:207-283 | the first segment that differs decides: numbers by value, strings as text, strings below numbers; a string in the tail makes a version smaller, a positive number larger |
| Gem.TrimTrailingZeros | grype/version/gem_version.go:137-161 | the backward scan yields the list without trailing zeros, a lone zero when all are zero |
| Gem.TrimIntermediateZeros | grype/version/gem_version.go:163-205 | for a prerelease exactly the zeros before the first string are removed |
| Gem.Canonicalise | grype/version/gem_version.go:56-64 | the two trims in order, and never an empty list |
| Gem.CompareSegments | grype/version/gem_version.go:207-246 | a difference in the common part is the answer; without one the tails decide |
| Gem.CompareLengths | grype/version/gem_version.go:248-283 | the longer tail is compared with zeros |
| Gem.Compare | grype/version/gem_version.go:87-98 | computes the version order |
| Rpm.SegmentsOfRender | grype/version/rpm_version.go:199-210 | cutting a dotted text into segments recovers exactly the segments it was made of |
| Rpm.SegmentsCut | grype/version/rpm_version.go:199-210 | any character but letters, digits and the tilde only cuts the text; a tilde cuts it and is a segment |
| Rpm.RunIsOneSegment | grype/version/rpm_version.go:199-210 | a run of ASCII letters or of digits is one segment |
| Rpm.FirstSegmentDecides | grype/version/rpm_version.go:215-290 | the first segment that differs decides: tilde below letters below numbers, letters as text, numbers by value; in the tail a tilde loses and anything but a literal zero wins |
| Rpm.RpmOrderAntisymmetric | grype/version/rpm_version.go:202-291 | on all strings: swapping sides flips the sign, a string ties with itself |
| Rpm.SameLengthTransitive | grype/version/rpm_version.go:215-257 | transitive among strings with equally many segments |
| Rpm.OrderIsEndPadded | grype/version/rpm_version.go:202-291 | without a trailing literal zero the comparison is lexicographic with "end of version" between tilde and everything else |
| Rpm.NoTrailingZeroTransitive | grype/version/rpm_version.go:202-291 | transitive on strings whose last segment is not "0" |
| Rpm.NotTransitive | grype/version/rpm_version.go:264-290 | a concrete intransitive triple |
| Rpm.TrailingZeroBreaks | grype/version/rpm_version.go:264-290 | every string with a trailing zero segment is in an intransitive triple with two strings that have none |
| Rpm.DomainIsMaximal | grype/version/rpm_version.go:202-291 | adding a string to that domain keeps transitivity if and only if its last segment is not "0" |
| Rpm.DecimalsOrder | grype/version/rpm_version.go:215-290 | numeric segments compare as zero-padded lexicographic order on their numbers |
| Rpm.DottedDecimals | grype/version/rpm_version.go:202-291 | on dotted decimals without leading zeros the comparison is zero-padded lexicographic order on natural numbers |
| Rpm.CompareSegment | grype/version/rpm_version.go:216-256 | tilde below letters below numbers, letters as text, numbers by value |
| Rpm.CompareLeftovers | grype/version/rpm_version.go:259-290 | the verdict on leftover segments: a tilde loses, literal zeros tie, anything else wins |
| Rpm.CompareRpmVersions | grype/version/rpm_version.go:202-291 | computes the RPM order, including the shortcut for equal strings |
| RpmVersions.ParsedIsDenotable | grype/version/rpm_version.go:20-40 | what parsing can produce: no dash in the version, a machine-integer epoch, no colon without an epoch |
| RpmVersions.PrintParseExact | grype/version/rpm_version.go:155-192 | a version survives printing and parsing if and only if some string denotes it |
| RpmVersions.ParsePrintParse | grype/version/rpm_version.go:20-40 | every string that parses gives the same epoch, version and release after print and parse |
| RpmVersions.SeparatorsSplit | grype/version/rpm_version.go:20-40 | the first dash separates version and release, the first colon the epoch, which must be an integer |
| RpmVersions.SpaceBeforeEpochIsSkipped | grype/version/rpm_version.go:184-192 | spaces before the epoch are skipped |
| RpmVersions.EpochThenVersionThenRelease | grype/version/rpm_version.go:114-137 | epochs that both sides have decide first, then versions, then releases |
| RpmVersions.CompareAntisymmetric | grype/version/rpm_version.go:114-137 | the deep-equality shortcut changes nothing and swapping sides flips the sign |
| RpmVersions.CompareDomainIsMaximal | grype/version/rpm_version.go:114-137 | adding a version to those with an epoch and without trailing zero segments keeps the comparison transitive if and only if it is one of them |
| RpmVersions.CompareTransitive | grype/version/rpm_version.go:114-137 | transitive also among versions that all lack an epoch and have no trailing zero segment |
| RpmVersions.MixedEpochsBreak | grype/version/rpm_version.go:119-129 | a concrete intransitive triple: 1:1 < 2 < 0:3 and 1:1 > 0:3 |
| RpmVersions.MissingEpochExact | grype/version/rpm_version.go:55-107 | for given epochs either strategy does what is documented on all versions if and only if it is not the case that the package's epoch is non-zero and the constraint's missing |
| RpmVersions.MissingEpochWitness | grype/version/rpm_version.go:81-107 | the package 1:2 ties with the constraint 2, where the documentation makes it newer |
| RpmVersions.AutoStrategyIgnoresMissing | grype/version/rpm_version.go:88-94 | under the auto strategy a package without an epoch is compared by version and release alone |
| RpmVersions.ZeroStrategyUsesZero | grype/version/rpm_version.go:96-105 | under the zero strategy a package without an epoch has epoch 0 against a constraint that has one |
| Fuzzy.FuzzyOrderAntisymmetric | grype/version/fuzzy_constraint.go:132-169 | on all strings swapping sides flips the sign |
| Fuzzy.LeadingVIsIgnored | grype/version/fuzzy_constraint.go:213-218 | putting a v or V in front changes no comparison if and only if the text does not lead with one already: exactly one is ignored |
| Fuzzy.DottedDecimals | grype/version/fuzzy_constraint.go:132-169 | on dotted decimals the first common component that differs in value decides, otherwise the longer string |
| Fuzzy.PaddedPiecesAreNumeric | grype/version/fuzzy_constraint.go:139-156 | left-padding to one length and comparing as text is numeric comparison |
| Fuzzy.PatchNumbers | grype/version/fuzzy_constraint.go:222-269 | after equal prefixes patch numbers compare by value when they fit a machine integer, else as text |
| Fuzzy.PartsMean | grype/version/fuzzy_constraint.go:170-201 | a part is a digit run, the text up to the first punctuation character, and that character: the first two are compared, the last is skipped |
| Fuzzy.FirstPartDecides | grype/version/fuzzy_constraint.go:132-163 | the compared texts of the first parts, the shorter digit run padded with zeros, decide if they differ, otherwise what follows does |
| Fuzzy.PlainPieces | grype/version/fuzzy_constraint.go:152-161 | unless both sides have a letter directly before a digit, compared texts compare as text |
| Fuzzy.PunctuationIs | grype/version/fuzzy_constraint.go:186-196 | exactly the ASCII punctuation characters separate parts |
| Fuzzy.ParseVersionParts | grype/version/fuzzy_constraint.go:175-201 | the digit run, the end of the compared text and the end of the part, with progress on every non-empty text |
| Fuzzy.LeftPad | grype/version/fuzzy_constraint.go:204-211 | the padded text |
| Fuzzy.HasPatchNumber | grype/version/fuzzy_constraint.go:222-232 | true exactly when a letter stands directly before a digit |
| Fuzzy.FuzzyVersionComparison | grype/version/fuzzy_constraint.go:132-169 | terminates on all strings and computes the fuzzy order |
| RangeExpressions.ScanExpression | grype/version/range_expression.go:108-166 | fails exactly when a parenthesis token occurs, otherwise yields the groups of the token sequence |
| RangeExpressions.ScanOr | grype/version/range_expression.go:115-163 | scanning a OR b yields the groups of a followed by those of b, whatever bars end a or start b |
| RangeExpressions.ScanPrinted | grype/version/range_expression.go:115-163 | printing non-empty groups with commas and double bars and scanning them returns the same groups |
| RangeExpressions.SeparatorsMean | grype/version/range_expression.go:115-163 | a comma ends a text, a single bar is ignored, two bars end a group |
| RangeExpressions.Satisfied | grype/version/range_expression.go:52-85 | an error exactly when some unit cannot be compared, otherwise true exactly when every unit of some group is in its bounds, operator by operator |
| RangeExpressions.SatisfiedByOne | grype/version/range.go:73-88 | the range `op c` is true for a version that compares to c as k exactly for k < 0, k <= 0, k == 0, k >= 0, k > 0 |
| RangeExpressions.OperatorLaws | grype/version/range.go:73-88 | `<c` and `>=c` are complements, `<=c` is `<c` or `=c`, and c itself satisfies neither `<c` nor `>c` |
| RangeExpressions.GroupIsConvex | grype/version/range.go:73-88 | under a total preorder every AND group denotes a convex set of versions |
| RangeExpressions.UpperBoundsAreDownwardClosed | grype/version/range.go:73-88 | a group of upper bounds is downward closed |
| ConvexFormats.GemGroupIsConvex | grype/version/range_expression.go:52-85 | AND groups are convex for gem versions |
| ConvexFormats.PortageGroupIsConvex | grype/version/range_expression.go:52-85 | AND groups are convex for Portage versions |
| ConvexFormats.GemUpperBounds | grype/version/range_expression.go:52-85 | upper-bound groups are downward closed for gem versions |
| ConvexFormats.PortageUpperBounds | grype/version/range_expression.go:52-85 | upper-bound groups are downward closed for Portage versions |
| RangeFilter.ParseGroups | grype/version/range_expression.go:20-40 | fails exactly when some unit does not parse, otherwise the units in place |
| RangeFilter.NewConstraint | grype/version/generic_constraint.go:16-26 | fails exactly for a parenthesis or an unparseable unit |
| RangeFilter.Evaluate | grype/version/generic_constraint.go:44-58 | the empty text is always satisfied, otherwise the groups decide |
| RangeFilter.FilterAffectedPackageRanges | grype/db/v6/vulnerability_provider.go:717-741 | true exactly when there are ranges and each parses and does not match, with the unmatched texts in order |
| RangeFilter.DroppedTextsInOrder | grype/db/v6/vulnerability_provider.go:717-741 | the unmatched texts come in the order of the ranges |
| RangeFilter.GetVersionConstraint | grype/db/v6/vulnerability.go:114-145 | builds the constraint of the non-empty texts joined with double bars, for the first in sorted order of the formats that ranges with a text name |
| RangeFilter.JoinTextsConcat | grype/db/v6/vulnerability.go:137 | joined texts have exactly one double bar between them |
| RangeFilter.JoinedMatches | grype/db/v6/vulnerability.go:114-145 | the joined constraint matches exactly when there is nothing to join, or no comparison fails and some non-empty range matches |
| RangeFilter.FilterDisagreesExactly | grype/db/v6/vulnerability_provider.go:717-741 | filtering keeps whatever the joined constraint matches, and the two disagree exactly when only empty texts match next to a range with a text, or a failing comparison spoils another range's match |
| RangeFilter.FilterThenEvaluate | grype/db/v6/vulnerability_provider.go:717-741 | the filter's answer against evaluating the constraint built for the same ranges: an error exactly when a comparison fails, else they disagree exactly when only empty texts match |
| RangeFilter.EmptyRangeWitness | grype/db/v6/vulnerability_provider.go:717-741 | a version above 1 is kept for the ranges "" and "<1" although the joined constraint does not match |
| RangeFilter.FilterAgreesWithJoin | grype/db/v6/vulnerability_provider.go:717-741 | they agree for non-empty, parseable ranges with error-free comparison |
| Sorting.SortIsCanonical | grype/match/details.go:61-86 | sorting by a total order depends only on the elements, not on their input order |
| DetailOrder.DetailsSortCanonically | grype/match/details.go:61-86 | every order of the details sorts to one list if and only if at most one unregistered type occurs |
| DetailOrder.SortedDetailsOrder | grype/match/details.go:61-86 | sorted details have direct before indirect before CPE matches before unregistered types, and within a registered type the highest confidence first and then the ids in text order |
| DetailOrder.UnregisteredTypesAreUnstable | grype/match/details.go:65-76 | a concrete list with two unregistered types that sorts to itself, and so does its reverse |
| Matching.MergeUnitesDetails | grype/match/match.go:65-78 | merging two matches unites their detail ids exactly |
| Matching.MergeUnitesReferences | grype/match/match.go:45-63 | merging two matches unites their related vulnerabilities exactly |
| Matching.MergedReferences | grype/match/match.go:45-63 | the references of a merge come from the two sides, none is lost by namespace and id, and they are in text order |
| Matching.FingerprintsTellApart | grype/match/match.go:29-38 | two matches share a fingerprint exactly when vulnerability, namespace, package and fix versions agree, for non-empty fix versions without commas |
| Matching.DecisiveReplaces | grype/match/matches.go:120-146 | without absorption the loop only returns by replacing a live match of the same core |
| Matching.StepKeepsValid | grype/match/matches.go:69-118 | every outcome of Add, under any map order, keeps all index invariants and leaves the new fingerprint live |
| Matching.AddIsSafeExactly | grype/match/matches.go:69-146 | all outcomes of Add keep the invariant if and only if the match is not an all-empty one facing a stale entry |
| Matching.StepConservesDetails | grype/match/matches.go:91-168 | one Add adds exactly the detail ids of the match to those held for its core, through merge, supersede and insert |
| Matching.StepConservesCores | grype/match/matches.go:91-168 | one Add adds exactly the match's core to the cores held |
| Matching.StepRemovesExactly | grype/match/matches.go:91-168 | an Add removes no live fingerprint, except exactly one when its own is not live and some live match of its core has only exact indirect details while it has a direct one; all other matches stay as they are |
| Matching.StepStoresTheNewMatch | grype/match/matches.go:91-168 | a new fingerprint stores the new vulnerability record and package, a live one keeps its own but for the related vulnerabilities |
| Matching.RunIsValid | grype/match/matches.go:69-168 | the invariant holds after any run of Add |
| Matching.RunConservesDetails | grype/match/matches.go:69-168 | after any run the detail ids held for a core are exactly those of all matches added with it |
| Matching.RunConservesCores | grype/match/matches.go:69-168 | after any run a core is held exactly when a match with it was added |
| Matching.EmptyFingerprintIsLost | grype/match/matches.go:120-146 | a concrete run that loses a match with an all-empty fingerprint |
| Matching.Matches.Add | grype/match/matches.go:69-89 | performs one step of the state machine per match, in order |
| Matching.Matches.AddOne | grype/match/matches.go:70-88 | one round of Add is one step of the state machine |
| Matching.Matches.AddOrMerge | grype/match/matches.go:91-118 | the cases exact fingerprint, core fingerprint and new match |
| Matching.Matches.TryExisting | grype/match/matches.go:121-144 | one round of the core loop returns exactly at a decisive entry |
| Matching.Matches.MergeCoreMatches | grype/match/matches.go:120-146 | ends at some decisive entry, or without one leaves the state alone |
| Matching.Matches.Replace | grype/match/matches.go:148-168 | moves the fingerprint in every package set and stores the match with the old details, leaving the core index stale |
| Matching.Matches.GetByPkgID | grype/match/matches.go:33-38 | one match for each fingerprint filed under the package; in a valid collection exactly the live matches of the package, each once |
| IgnoreIndex.GetIgnoreConditions | grype/match/ignore.go:189-231 | a rule has no condition exactly when it specifies no criterion, and all conditions hold for a match exactly when every specified criterion does |
| IgnoreIndex.IgnoreMatchByRule | grype/match/ignore.go:141-163 | the rule is returned exactly when it is no VEX rule, specifies a criterion, and every specified criterion holds |
| IgnoreIndex.IgnoreMatchByRelation | grype/match/ignore.go:64-100 | the synthetic rule is returned exactly for the vulnerability or an alias of it and a related package with the given id |
| IgnoreIndex.RuleMeans | grype/match/ignore.go:141-380 | when a rule applies, criterion by criterion in the terms of the match; aliases count only where the rule includes them |
| IgnoreIndex.NameMeans | grype/match/ignore.go:266-291 | a name without regular-expression characters is compared, any other is matched anchored |
| IgnoreIndex.RelationMeans | grype/match/ignore.go:64-91 | a relation filter applies to the vulnerability or an alias of it and an owner with the given id |
| IgnoreIndex.AnswerIs | grype/match/ignore.go:92-99 | the rules a filter returns: the rule itself, or one made up of vulnerability, aliases and reason |
| IgnoreIndex.IgnoredMatchFilter | grype/vulnerability_matcher.go:409-443 | every filter is filed in exactly one slot, in order |
| IgnoreIndex.MatchIndexed | grype/vulnerability_matcher.go:398-405 | the answer of the first filter that applies |
| IgnoreIndex.IgnoreMatchByIndex | grype/vulnerability_matcher.go:378-396 | the first answer among the filters looked up by vulnerability, alias, name, real path and the rest |
| IgnoreIndex.FirstAnswerIsFirst | grype/vulnerability_matcher.go:398-405 | the answer is that of the first filter that applies |
| IgnoreIndex.IndexOrder | grype/vulnerability_matcher.go:378-396 | the filters consulted are those filed under the vulnerability's own id, then its aliases, its package name, its real paths in order, and the remaining ones last |
| IgnoreIndex.IndexExactly | grype/vulnerability_matcher.go:378-443 | the index ignores a match if and only if an applicable filter is filed under a key the match is looked up with; so it never ignores more than the scan |
| IgnoreIndex.MissedExactly | grype/vulnerability_matcher.go:409-443 | an applicable rule is missed exactly when it is filed by a location without a star that is no real path, or else by a name that is a regular expression other than the package name; a relation filter never is |
| IgnoreIndex.IndexAgrees | grype/vulnerability_matcher.go:378-443 | with literal names and locations and equal paths the index and the scan agree |
| IgnoreIndex.RegexNameIsMissed | grype/vulnerability_matcher.go:423-427 | a concrete rule the index misses because its name is a regular expression |
| IgnoreIndex.AccessPathIsMissed | grype/vulnerability_matcher.go:390-394 | a concrete rule the index misses because its location is an access path |
| IgnoreIndex.ApplyIgnoreFilters | grype/match/ignore.go:115-139 | the two lists are in order and together hold every match exactly once, ignored with all rules that applied or kept when none did |
| IgnoreIndex.KeptInOrder | grype/match/ignore.go:115-139 | kept matches come in the order of the matches |
| IgnoreIndex.DroppedInOrder | grype/match/ignore.go:115-139 | ignored matches come in the order of the matches |
| IgnoreIndex.RulesInOrder | grype/match/ignore.go:122-124 | the rules of an ignored match come in the order of the filters |
| IgnoreIndex.IndexPartitionsLikeScan | grype/match/ignore.go:115-139 | both ways of filtering keep and ignore the same matches in the same order |
| Criteria.FlatteningKeepsMeaning | grype/search/criteria.go:16-53 | the and/or tree is met exactly when some yielded row is met, if and only if the criteria list is not empty |
| Criteria.RowsMean | grype/search/criteria.go:31-53 | some row extending a prefix is met exactly when the prefix and the remaining tree are met |
| Criteria.YieldedRowsArePicks | grype/search/criteria.go:16-53 | the rows yielded are exactly the choices that the tree allows: a plain criterion picks itself, And from all its parts in order, Or from one option |
| Criteria.PlainCriteriaYieldThemselves | grype/search/criteria.go:31-53 | a list of plain criteria yields exactly that list |
| Criteria.OptionsComeInOrder | grype/search/criteria.go:38-53 | the rows of an alternative come in the order of its options |
| Criteria.ProcessYieldsRows | grype/search/criteria.go:31-53 | the recursion hands out exactly the rows, in order, and nothing after a stop |
| Criteria.IteratorYields | grype/search/criteria.go:16-29 | a consumer sees the rows up to and including the first one it refuses, and all of them if it refuses none; none for an empty list |
| Criteria.RowIsValid | grype/search/criteria.go:61-75 | a row is rejected exactly when two of its criteria share a kind that may not repeat |
| Criteria.TwoOfAKindConflict | grype/search/criteria.go:61-75 | two criteria of one non-function kind conflict wherever they stand, function criteria do not |
| Criteria.ValidateCriteria | grype/search/criteria.go:59-78 | accepts exactly when no choice that the tree allows repeats a kind other than the function kind |
| IdCache.BatchKeepsConsistent | grype/db/v6/vulnerability_store.go:217-272 | a batch keeps cache and rows in agreement, changes no known id and caches all its keys |
| IdCache.OneRowPerKey | grype/db/v6/vulnerability_store.go:217-272 | across any sequence of batches a key has exactly one row if some batch contains it, none otherwise, and the cached id is that row's |
| IdCache.BatchIsCreateAll | grype/db/v6/vulnerability_store.go:224-259 | writing the de-duplicated new keys at once is the same as adding the handles one by one |
| IdCache.Cache.GetID | grype/db/v6/cache.go:56-64 | finds exactly what is cached for table and key |
| IdCache.Cache.SetIDEntry | grype/db/v6/cache.go:101-113 | changes one entry of one table |
| IdCache.WriteRecords | grype/db/v6/vulnerability_store.go:250-259 | the records get consecutive ids and the cache holds those ids |
| IdCache.BackFill | grype/db/v6/vulnerability_store.go:261-269 | filed records get the id cached for their key, all others keep theirs, and it fails only for an uncached key |
| IdCache.CreateRecordsWithCache | grype/db/v6/vulnerability_store.go:217-272 | the batch is written, every handle ends with the id cached for its key, and the "unable to find ID" error does not occur |
| IdCache.AddReferences | grype/db/v6/operating_system_store.go:156-209 | the referenced records are written as a batch, every handle with a reference ends with the foreign key cached for its own key, and one without keeps its own; addCPEs has the same loops |
| IdCache.BlobStore.AddBlobs | grype/db/v6/blob_store.go:51-70 | equal digests share the one id indexed for the digest and no known id changes |
| IdCache.BlobsReadBack | grype/db/v6/blob_store.go:51-70 | every stored value reads back unchanged if and only if the digest tells the stored values apart |
| EsmMerge.ToFix | grype/db/v6/vulnerability.go:340-382 | the fixed versions in order; state fixed exactly when some range is fixed, else that of the last won't-fix or not-fixed range; versions only with the state fixed |
| EsmMerge.FixedVersionsExactly | grype/db/v6/vulnerability.go:348-350 | the versions are exactly those of the fixed ranges |
| EsmMerge.FixedVersionsInOrder | grype/db/v6/vulnerability.go:348-350 | the versions come in the order of the ranges |
| EsmMerge.LastVerdictExactly | grype/db/v6/vulnerability.go:363-370 | without a fixed range the last range that says won't-fix or not-fixed gives the state |
| EsmMerge.SatisfiedBy | grype/version/combined_constraint.go:53-69 | evaluates the operands in order up to the first error or the first that accepts |
| EsmMerge.VerdictMeans | grype/version/combined_constraint.go:53-69 | such an evaluation fails exactly when an operand that cannot be evaluated comes before every accepting one, and is true exactly when it does not fail and some operand accepts |
| EsmMerge.UniqueConstraints | grype/version/combined_constraint.go:71-82 | computes the first constraint of each text, in order |
| EsmMerge.OneOfEachText | grype/version/combined_constraint.go:71-82 | of each text there is exactly one constraint, none invented |
| EsmMerge.FirstIsKept | grype/version/combined_constraint.go:71-82 | the constraint kept for a text is its first one |
| EsmMerge.SameVerdict | grype/version/combined_constraint.go:71-82 | dropping repeated constraints changes no evaluation, errors included |
| EsmMerge.CombineConstraints | grype/version/combined_constraint.go:10-23 | nil exactly for no constraint, otherwise the first constraint of each text as operands |
| EsmMerge.NeededFixes | grype/matcher/dpkg/ubuntu_esm.go:286-301 | exactly the fix versions newer than the installed version |
| EsmMerge.NeededIsBelow | grype/matcher/dpkg/ubuntu_esm.go:286-301 | a fix is needed exactly when the installed version satisfies the constraint `< fix` |
| EsmMerge.Collect | grype/matcher/dpkg/ubuntu_esm.go:181-212 | fix versions, constraints, state and details after one overlay |
| EsmMerge.BuildPatchedRecord | grype/matcher/dpkg/ubuntu_esm.go:216-235 | the record's state, fix versions and constraint operands |
| EsmMerge.MergeIntoDisclosure | grype/matcher/dpkg/ubuntu_esm.go:154-177 | the disclosure is dropped exactly when neither it nor an advisory speaks for vulnerability, otherwise patched; the details are those of the overlays with a needed fix |
| EsmMerge.DetailsExactly | grype/matcher/dpkg/ubuntu_esm.go:207-211 | the details are those of the overlays with a needed fix |
| EsmMerge.DetailsInOrder | grype/matcher/dpkg/ubuntu_esm.go:162-164 | the details come in the order of the overlays |
| EsmMerge.FinalStateIs | grype/matcher/dpkg/ubuntu_esm.go:303-317 | the advisories' state counts unless it is absent or unknown, then the disclosure's own does |
| EsmMerge.StateExactly | grype/matcher/dpkg/ubuntu_esm.go:184-206 | for any advisories the state is fixed exactly when one with a needed fix is fixed, else the state of one that acts, or none |
| EsmMerge.ShapedState | grype/matcher/dpkg/ubuntu_esm.go:184-206 | with advisories as toFix makes them the state is fixed if some fix is needed, else won't-fix if some advisory says so |
| EsmMerge.SatisfiedExactly | grype/matcher/dpkg/ubuntu_esm.go:216-235 | the combined constraint of a kept record evaluates to true if and only if no gathered constraint fails before one accepts, and one accepts or a needed fix of a fixed advisory gives a constraint |
| EsmMerge.KeptIsSatisfied | grype/matcher/dpkg/ubuntu_esm.go:154-235 | the combined constraint of a kept record evaluates to true if and only if the disclosure covers the version or no advisory constraint fails before one accepts |
| EsmMerge.KeptIsSatisfiedWithoutErrors | grype/matcher/dpkg/ubuntu_esm.go:154-235 | with error-free comparison a kept record is always satisfied by the installed version |
| EsmMerge.KeptState | grype/matcher/dpkg/ubuntu_esm.go:303-317 | the state of a kept record: fixed when a fix is needed, else won't-fix if an advisory says so, else the disclosure's own, and then the disclosure itself covers the version |
| EsmMerge.OrderDoesNotMatter | grype/matcher/dpkg/ubuntu_esm.go:154-235 | verdict, fix versions and operands depend only on which advisories there are, and so does the fix state for advisories as toFix makes them |
| EsmMerge.OrderMattersExactly | grype/matcher/dpkg/ubuntu_esm.go:184-206 | the record's fix state is the same for every order of the advisories if and only if one with a needed fix is fixed or all that set the state lead to one state |
| EsmMerge.UnshapedDependsOnOrder | grype/matcher/dpkg/ubuntu_esm.go:185-204 | two advisories whose two orders give a record the states won't-fix and not-fixed |
| EsmMerge.FailingAdvisoryBlocks | grype/version/combined_constraint.go:53-69 | a record kept for one advisory whose constraint cannot be evaluated has a constraint that cannot be evaluated |
| Rootio.RoundTrip | grype/internal/rootio/rootio.go:63-139 | stripping the added prefix gives the name back if and only if the name is in the stated class, for every name and ecosystem |
| Rootio.ScopedIsLost | grype/internal/rootio/rootio.go:63-139 | the scoped npm name @my__org/x does not come back |
| Rootio.PrefixedIsRecognised | grype/internal/rootio/rootio.go:143-171 | every prefixed name is recognised as a rootio name |
| Rootio.OnlyPrefixedAreRecognised | grype/internal/rootio/rootio.go:143-171 | outside npm a name is recognised exactly when prefixing leaves it alone, in npm exactly with one of two prefixes; a Java group id alone is enough |
| Rootio.OtherSpellingsAreStripped | grype/internal/rootio/rootio.go:63-88 | the second spellings of the prefix are stripped, and a name without a prefix stays as it is |
| Rootio.PrefixesAre | grype/internal/rootio/rootio.go:100-139 | the prefix that each ecosystem adds |
| Rootio.PrefixedNamesDiffer | grype/internal/rootio/rootio.go:100-139 | names that come back never share a prefixed name |

## Left out

- Regular expressions: a Portage version is what the version expression captures and a gem version is its segment list; the unanchored match, architecture cleaning and the "-" rewriting of gem versions are not modelled.
- Tokenising and unit parsing of range expressions: expressions are token sequences, and parsing one unit is a parameter; the joined text is taken to scan into the tokens of its parts.
- Comparators that call libraries (apk, deb, maven, pep440, semver, bitnami, golang, jvm), and the pacman comparator, whose body is the RPM one.
- Turning a format name into a version format (ParseFormat), and ranges of several formats: comparison with the installed version is one parameter for all ranges of a package.
- Falling back to the other side's format in Version.Compare, and the comparator cache.
- CPE merging in Match.Merge, which is a library call; sort.Sort is modelled as a stable insertion sort, which is what it does on short lists, so what DetailOrder says about two unregistered types is about that sort.
- Matches.Merge and Matches.Diff, which are loops over Add, and Matches.Sorted.
- Regular-expression and glob engines of ignore rules: parameters. The in-place deletion from the caller's filter slice is modelled on values.
- Slice sharing in the criteria recursion: rows and remaining criteria are values, so a consumer that keeps a row while the iterator goes on is not covered.
- Locking of the id cache, database errors, hooks and transactions: creating a row is taking the next id. The string-id cache used for providers follows the same pattern.
- EsmMerge.KeptIsSatisfied: like the other lemmas about operands it assumes that constraints of one release with the same text are the same constraint and that "< fix" parses for the needed fixes; the provider searches before the merge are not modelled, nor is the sorting of fix versions.
- IdCache.AddReferences: the clean-up of operating system versions before the key is computed is not modelled; a record's key is fixed.
- Fix availability dates, advisories, severities, presenters, matchers, the CLI and everything that reads the database.
