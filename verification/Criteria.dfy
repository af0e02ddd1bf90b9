/**
 Search criteria: an and/or tree flattened into rows of plain criteria, one row per way of choosing
 among the alternatives, handed one by one to a consumer that may stop.
 */
module Criteria {

  /** The Go type of a plain criterion; only function criteria may repeat. */
  datatype Kind = Function | Kind(name: string)

  datatype Criterion = And(parts: seq<Criterion>) | Or(options: seq<Criterion>) | Leaf(kind: Kind, id: string)

  type Row = seq<Criterion>

  // ----- meaning

  /** The usual all/any meaning, given which plain criteria hold. */
  predicate Meets(holds: Criterion -> bool, c: Criterion) {
    match c
    case And(parts) => forall i :: 0 <= i < |parts| ==> Meets(holds, parts[i])
    case Or(options) => exists i :: 0 <= i < |options| && Meets(holds, options[i])
    case Leaf(_, _) => holds(c)
  }

  predicate MeetsAll(holds: Criterion -> bool, cs: seq<Criterion>) {
    forall i :: 0 <= i < |cs| ==> Meets(holds, cs[i])
  }

  ghost predicate SomeRowMeets(holds: Criterion -> bool, rows: seq<Row>) {
    exists i :: 0 <= i < |rows| && MeetsAll(holds, rows[i])
  }

  // ----- flattening

  function Size(c: Criterion): (n: nat)
    ensures n > 0
    decreases c, 1
  {
    match c
    case And(parts) => 1 + SizeAll(parts)
    case Or(options) => 1 + SizeAll(options)
    case Leaf(_, _) => 1
  }

  function SizeAll(cs: seq<Criterion>): (n: nat)
    decreases cs, 0
  {
    if cs == [] then 0 else Size(cs[0]) + SizeAll(cs[1..])
  }

  lemma {:induction false} SizeAllConcat(a: seq<Criterion>, b: seq<Criterion>)
    ensures SizeAll(a + b) == SizeAll(a) + SizeAll(b)
    decreases |a|
  {
    if a == [] {
      assert a + b == b;
    } else {
      assert (a + b)[1..] == a[1..] + b;
      SizeAllConcat(a[1..], b);
    }
  }

  /** The rows that extend row by one choice for each of the remaining criteria, in yield order. */
  function Rows(row: Row, criteria: seq<Criterion>): (rows: seq<Row>)
    decreases SizeAll(criteria), 2
  {
    if criteria == [] then [row] else RowsOfItem(row, criteria[1..], criteria[0])
  }

  function RowsOfItem(row: Row, criteria: seq<Criterion>, item: Criterion): (rows: seq<Row>)
    decreases Size(item) + SizeAll(criteria), 1
  {
    match item
    case And(parts) =>
      SizeAllConcat(parts, criteria);
      Rows(row, parts + criteria)
    case Or(options) => RowsOfOptions(row, criteria, options)
    case Leaf(_, _) => Rows(row + [item], criteria)
  }

  function RowsOfOptions(row: Row, criteria: seq<Criterion>, options: seq<Criterion>): (rows: seq<Row>)
    decreases SizeAll(options) + SizeAll(criteria), 3
  {
    if options == [] then []
    else RowsOfItem(row, criteria, options[0]) + RowsOfOptions(row, criteria, options[1..])
  }

  /** The rows CriteriaIterator yields to a consumer that never stops. */
  function YieldedRows(criteria: seq<Criterion>): (rows: seq<Row>) {
    if criteria == [] then [] else Rows([], criteria)
  }

  lemma SomeRowConcat(holds: Criterion -> bool, a: seq<Row>, b: seq<Row>)
    ensures SomeRowMeets(holds, a + b) <==> SomeRowMeets(holds, a) || SomeRowMeets(holds, b)
  {
    if i :| 0 <= i < |a| && MeetsAll(holds, a[i]) {
      assert (a + b)[i] == a[i];
    }
    if i :| 0 <= i < |b| && MeetsAll(holds, b[i]) {
      assert (a + b)[|a| + i] == b[i];
    }
  }

  lemma MeetsAllConcat(holds: Criterion -> bool, a: seq<Criterion>, b: seq<Criterion>)
    ensures MeetsAll(holds, a + b) <==> MeetsAll(holds, a) && MeetsAll(holds, b)
  {
    if MeetsAll(holds, a + b) {
      forall i | 0 <= i < |a| ensures Meets(holds, a[i]) {
        assert (a + b)[i] == a[i];
      }
      forall i | 0 <= i < |b| ensures Meets(holds, b[i]) {
        assert (a + b)[|a| + i] == b[i];
      }
    }
  }

  lemma {:induction false} RowsMean(holds: Criterion -> bool, row: Row, criteria: seq<Criterion>)
    ensures SomeRowMeets(holds, Rows(row, criteria)) <==> MeetsAll(holds, row) && MeetsAll(holds, criteria)
    decreases SizeAll(criteria), 2
  {
    if criteria == [] {
      assert Rows(row, criteria)[0] == row;
    } else {
      RowsOfItemMean(holds, row, criteria[1..], criteria[0]);
      assert criteria == [criteria[0]] + criteria[1..];
      MeetsAllConcat(holds, [criteria[0]], criteria[1..]);
    }
  }

  lemma {:induction false} RowsOfItemMean(holds: Criterion -> bool, row: Row, criteria: seq<Criterion>, item: Criterion)
    ensures SomeRowMeets(holds, RowsOfItem(row, criteria, item)) <==>
            MeetsAll(holds, row) && Meets(holds, item) && MeetsAll(holds, criteria)
    decreases Size(item) + SizeAll(criteria), 1
  {
    match item
    case And(parts) =>
      SizeAllConcat(parts, criteria);
      RowsMean(holds, row, parts + criteria);
      MeetsAllConcat(holds, parts, criteria);
    case Or(options) =>
      RowsOfOptionsMean(holds, row, criteria, options);
    case Leaf(_, _) =>
      RowsMean(holds, row + [item], criteria);
      MeetsAllConcat(holds, row, [item]);
      assert MeetsAll(holds, [item]) <==> Meets(holds, [item][0]);
  }

  lemma {:induction false} RowsOfOptionsMean(holds: Criterion -> bool, row: Row, criteria: seq<Criterion>,
                                             options: seq<Criterion>)
    ensures SomeRowMeets(holds, RowsOfOptions(row, criteria, options)) <==>
            && MeetsAll(holds, row)
            && (exists i :: 0 <= i < |options| && Meets(holds, options[i]))
            && MeetsAll(holds, criteria)
    decreases SizeAll(options) + SizeAll(criteria), 3
  {
    if options != [] {
      RowsOfItemMean(holds, row, criteria, options[0]);
      RowsOfOptionsMean(holds, row, criteria, options[1..]);
      SomeRowConcat(holds, RowsOfItem(row, criteria, options[0]), RowsOfOptions(row, criteria, options[1..]));
      if i :| 0 <= i < |options| && Meets(holds, options[i]) {
        if i > 0 { assert options[1..][i - 1] == options[i]; }
      }
      if i :| 0 <= i < |options[1..]| && Meets(holds, options[1..][i]) {
        assert options[i + 1] == options[1..][i];
      }
    }
  }

  /**
   A vulnerability meets the criteria exactly when it meets every plain criterion of some row;
   this holds for every list but the empty one, for which no row is yielded.
   */
  lemma FlatteningKeepsMeaning(holds: Criterion -> bool, criteria: seq<Criterion>)
    ensures (MeetsAll(holds, criteria) <==> SomeRowMeets(holds, YieldedRows(criteria))) <==> criteria != []
  {
    if criteria != [] {
      RowsMean(holds, [], criteria);
    }
  }

  // ----- which rows there are

  /**
   A choice of plain criteria that the list allows: a plain criterion picks itself, And picks from
   all its parts, in order, and Or picks from one of its options.
   */
  ghost predicate Picks(cs: seq<Criterion>, row: Row)
    decreases SizeAll(cs), 2
  {
    if cs == [] then row == []
    else exists k :: 0 <= k <= |row| && PicksOne(cs[0], row[..k]) && Picks(cs[1..], row[k..])
  }

  ghost predicate PicksOne(c: Criterion, row: Row)
    decreases Size(c), 1
  {
    match c
    case And(parts) => Picks(parts, row)
    case Or(options) =>
      exists i :: 0 <= i < |options| && (SizeOfOption(options, i); PicksOne(options[i], row))
    case Leaf(_, _) => row == [c]
  }

  lemma {:induction false} SizeOfOption(options: seq<Criterion>, i: nat)
    requires i < |options|
    ensures Size(options[i]) <= SizeAll(options)
    decreases |options|
  {
    if i > 0 { SizeOfOption(options[1..], i - 1); }
  }

  /** Cutting a row twice. */
  lemma CutTwice(row: Row, i: nat, k: nat)
    requires i <= k <= |row|
    ensures row[..k][..i] == row[..i] && row[..k][i..] == row[i..][..k - i] && row[i..][k - i..] == row[k..]
  {
  }

  /** The first criterion of a list picks a front of the row, the others pick the rest. */
  lemma FirstPicks(cs: seq<Criterion>, row: Row) returns (i: nat)
    requires cs != [] && Picks(cs, row)
    ensures i <= |row| && PicksOne(cs[0], row[..i]) && Picks(cs[1..], row[i..])
  {
    i :| 0 <= i <= |row| && PicksOne(cs[0], row[..i]) && Picks(cs[1..], row[i..]);
  }

  /** A choice from a list can be cut into a choice from its front and one from its rest. */
  lemma {:induction false} PicksCut(a: seq<Criterion>, b: seq<Criterion>, row: Row) returns (k: nat)
    requires Picks(a + b, row)
    ensures k <= |row| && Picks(a, row[..k]) && Picks(b, row[k..])
    decreases |a|
  {
    if a == [] {
      assert a + b == b;
      k := 0;
    } else {
      assert (a + b)[1..] == a[1..] + b && (a + b)[0] == a[0];
      var i := FirstPicks(a + b, row);
      var l := PicksCut(a[1..], b, row[i..]);
      k := i + l;
      CutTwice(row, i, k);
      assert PicksOne(a[0], row[..k][..i]) && Picks(a[1..], row[..k][i..]);
    }
  }

  lemma {:induction false} PicksJoin(a: seq<Criterion>, b: seq<Criterion>, row: Row, k: nat)
    requires k <= |row| && Picks(a, row[..k]) && Picks(b, row[k..])
    ensures Picks(a + b, row)
    decreases |a|
  {
    if a == [] {
      assert a + b == b && row[k..] == row;
    } else {
      var i := FirstPicks(a, row[..k]);
      CutTwice(row, i, k);
      PicksJoin(a[1..], b, row[i..], k - i);
      assert (a + b)[1..] == a[1..] + b && (a + b)[0] == a[0];
    }
  }

  /** One criterion in front of the others. */
  lemma PicksFirst(item: Criterion, criteria: seq<Criterion>, row: Row)
    ensures Picks([item] + criteria, row) <==>
            exists k :: 0 <= k <= |row| && PicksOne(item, row[..k]) && Picks(criteria, row[k..])
  {
    assert ([item] + criteria)[1..] == criteria;
  }

  lemma AndPicks(parts: seq<Criterion>, criteria: seq<Criterion>, row: Row)
    ensures Picks([And(parts)] + criteria, row) <==> Picks(parts + criteria, row)
  {
    PicksFirst(And(parts), criteria, row);
    if Picks([And(parts)] + criteria, row) {
      var k :| 0 <= k <= |row| && PicksOne(And(parts), row[..k]) && Picks(criteria, row[k..]);
      PicksJoin(parts, criteria, row, k);
    }
    if Picks(parts + criteria, row) {
      var k := PicksCut(parts, criteria, row);
      assert PicksOne(And(parts), row[..k]);
    }
  }

  lemma OrPicks(options: seq<Criterion>, criteria: seq<Criterion>, row: Row)
    ensures Picks([Or(options)] + criteria, row) <==>
            exists i :: 0 <= i < |options| && Picks([options[i]] + criteria, row)
  {
    PicksFirst(Or(options), criteria, row);
    forall i | 0 <= i < |options| {
      PicksFirst(options[i], criteria, row);
    }
    if Picks([Or(options)] + criteria, row) {
      var k :| 0 <= k <= |row| && PicksOne(Or(options), row[..k]) && Picks(criteria, row[k..]);
      var i :| 0 <= i < |options| && PicksOne(options[i], row[..k]);
      assert Picks([options[i]] + criteria, row);
    }
    if i :| 0 <= i < |options| && Picks([options[i]] + criteria, row) {
      var k :| 0 <= k <= |row| && PicksOne(options[i], row[..k]) && Picks(criteria, row[k..]);
      assert PicksOne(Or(options), row[..k]);
    }
  }

  lemma LeafPicks(leaf: Criterion, criteria: seq<Criterion>, row: Row)
    requires leaf.Leaf?
    ensures Picks([leaf] + criteria, row) <==> row != [] && row[0] == leaf && Picks(criteria, row[1..])
  {
    PicksFirst(leaf, criteria, row);
    if row != [] && row[0] == leaf && Picks(criteria, row[1..]) {
      assert row[..1] == [leaf];
      assert PicksOne(leaf, row[..1]);
    }
  }

  /** The row r extends row by a choice from the criteria. */
  ghost predicate Extends(row: Row, criteria: seq<Criterion>, r: Row) {
    row <= r && Picks(criteria, r[|row|..])
  }

  lemma {:induction false} RowsArePicks(row: Row, criteria: seq<Criterion>, r: Row)
    ensures r in Rows(row, criteria) <==> Extends(row, criteria, r)
    decreases SizeAll(criteria), 2
  {
    if criteria == [] {
      assert Rows(row, criteria) == [row] && row[|row|..] == [];
      if Extends(row, criteria, r) {
        assert r[|row|..] == [];
        assert r == r[..|row|] + r[|row|..];
        assert r == row && r in [row];
      }
    } else {
      ItemRowsArePicks(row, criteria[1..], criteria[0], r);
      assert [criteria[0]] + criteria[1..] == criteria;
    }
  }

  lemma {:induction false} ItemRowsArePicks(row: Row, criteria: seq<Criterion>, item: Criterion, r: Row)
    ensures r in RowsOfItem(row, criteria, item) <==> Extends(row, [item] + criteria, r)
    decreases Size(item) + SizeAll(criteria), 1
  {
    var rest := if row <= r then r[|row|..] else [];
    match item
    case And(parts) =>
      SizeAllConcat(parts, criteria);
      RowsArePicks(row, parts + criteria, r);
      AndPicks(parts, criteria, rest);
    case Or(options) =>
      OptionRowsArePicks(row, criteria, options, r);
      OrPicks(options, criteria, rest);
    case Leaf(_, _) =>
      RowsArePicks(row + [item], criteria, r);
      LeafPicks(item, criteria, rest);
      LongerRow(row, item, r);
  }

  lemma LongerRow(row: Row, item: Criterion, r: Row)
    ensures row + [item] <= r <==> row <= r && r[|row|..] != [] && r[|row|..][0] == item
    ensures row + [item] <= r ==> r[|row + [item]|..] == r[|row|..][1..]
  {
    if row <= r && |r| > |row| && r[|row|] == item {
      assert r[..|row| + 1] == r[..|row|] + [r[|row|]];
    }
  }

  lemma {:induction false} OptionRowsArePicks(row: Row, criteria: seq<Criterion>, options: seq<Criterion>, r: Row)
    ensures r in RowsOfOptions(row, criteria, options) <==>
            exists i :: 0 <= i < |options| && Extends(row, [options[i]] + criteria, r)
    decreases SizeAll(options) + SizeAll(criteria), 3
  {
    if options != [] {
      ItemRowsArePicks(row, criteria, options[0], r);
      OptionRowsArePicks(row, criteria, options[1..], r);
      if i :| 0 <= i < |options| && Extends(row, [options[i]] + criteria, r) {
        if i > 0 { assert options[1..][i - 1] == options[i]; }
      }
      if i :| 0 <= i < |options[1..]| && Extends(row, [options[1..][i]] + criteria, r) {
        assert options[i + 1] == options[1..][i];
      }
    }
  }

  /** The yielded rows are exactly the choices that the and/or tree allows. */
  lemma YieldedRowsArePicks(criteria: seq<Criterion>, row: Row)
    ensures row in YieldedRows(criteria) <==> criteria != [] && Picks(criteria, row)
  {
    RowsArePicks([], criteria, row);
    assert row[0..] == row;
  }

  lemma {:induction false} LeavesYieldThemselves(row: Row, leaves: seq<Criterion>)
    requires AllLeaves(leaves)
    ensures Rows(row, leaves) == [row + leaves]
    decreases |leaves|
  {
    if leaves == [] {
      assert row + leaves == row;
    } else {
      LeavesYieldThemselves(row + [leaves[0]], leaves[1..]);
      assert row + [leaves[0]] + leaves[1..] == row + leaves;
    }
  }

  /** A list of plain criteria yields one row, the list itself. */
  lemma PlainCriteriaYieldThemselves(leaves: seq<Criterion>)
    requires leaves != [] && AllLeaves(leaves)
    ensures YieldedRows(leaves) == [leaves]
  {
    LeavesYieldThemselves([], leaves);
    assert [] + leaves == leaves;
  }

  /** The rows of an alternative come in the order of its options. */
  lemma {:induction false} OptionsComeInOrder(row: Row, criteria: seq<Criterion>, a: seq<Criterion>, b: seq<Criterion>)
    ensures RowsOfItem(row, criteria, Or(a + b)) == RowsOfItem(row, criteria, Or(a)) + RowsOfItem(row, criteria, Or(b))
    decreases |a|
  {
    if a == [] {
      assert a + b == b;
    } else {
      assert (a + b)[1..] == a[1..] + b;
      OptionsComeInOrder(row, criteria, a[1..], b);
    }
  }

  // ----- the consumer may stop

  /** What has been yielded so far, and whether the consumer still wants more. */
  datatype Outcome = Outcome(seen: seq<Row>, more: bool)

  /** A consumer sees everything yielded up to now and says whether to go on. */
  type Consumer = seq<Row> -> bool

  function Yield(seen: seq<Row>, row: Row, consumer: Consumer): (r: Outcome) {
    Outcome(seen + [row], consumer(seen + [row]))
  }

  /** processRemaining, processRemainingItem and its loop over the options of an Or. */
  function ProcessRemaining(seen: seq<Row>, row: Row, criteria: seq<Criterion>, consumer: Consumer): (r: Outcome)
    decreases SizeAll(criteria), 2
  {
    if criteria == [] then Yield(seen, row, consumer)
    else ProcessItem(seen, row, criteria[1..], criteria[0], consumer)
  }

  function ProcessItem(seen: seq<Row>, row: Row, criteria: seq<Criterion>, item: Criterion, consumer: Consumer): (r: Outcome)
    decreases Size(item) + SizeAll(criteria), 1
  {
    match item
    case And(parts) =>
      SizeAllConcat(parts, criteria);
      ProcessRemaining(seen, row, parts + criteria, consumer)
    case Or(options) => ProcessOptions(seen, row, criteria, options, consumer)
    case Leaf(_, _) => ProcessRemaining(seen, row + [item], criteria, consumer)
  }

  function ProcessOptions(seen: seq<Row>, row: Row, criteria: seq<Criterion>, options: seq<Criterion>, consumer: Consumer): (r: Outcome)
    decreases SizeAll(options) + SizeAll(criteria), 3
  {
    if options == [] then Outcome(seen, true)
    else
      var first := ProcessItem(seen, row, criteria, options[0], consumer);
      if !first.more then first
      else ProcessOptions(first.seen, row, criteria, options[1..], consumer)
  }

  /** Handing out a list of rows until the consumer stops. */
  function Consume(seen: seq<Row>, rows: seq<Row>, consumer: Consumer): (r: Outcome)
    decreases |rows|
  {
    if rows == [] then Outcome(seen, true)
    else
      var y := Yield(seen, rows[0], consumer);
      if y.more then Consume(y.seen, rows[1..], consumer) else y
  }

  lemma {:induction false} ConsumeConcat(seen: seq<Row>, a: seq<Row>, b: seq<Row>, consumer: Consumer)
    ensures Consume(seen, a + b, consumer) ==
            var first := Consume(seen, a, consumer);
            if first.more then Consume(first.seen, b, consumer) else first
    decreases |a|
  {
    if a == [] {
      assert a + b == b;
    } else {
      assert (a + b)[1..] == a[1..] + b;
      ConsumeConcat(seen + [a[0]], a[1..], b, consumer);
    }
  }

  /** The recursion hands out exactly the rows of the tree, in order, and nothing after a stop. */
  lemma {:induction false} ProcessYieldsRows(seen: seq<Row>, row: Row, criteria: seq<Criterion>, consumer: Consumer)
    ensures ProcessRemaining(seen, row, criteria, consumer) == Consume(seen, Rows(row, criteria), consumer)
    decreases SizeAll(criteria), 2
  {
    if criteria == [] {
      assert [row][1..] == [];
      assert Consume(seen + [row], [row][1..], consumer) == Outcome(seen + [row], true);
    } else {
      ProcessItemYieldsRows(seen, row, criteria[1..], criteria[0], consumer);
    }
  }

  lemma {:induction false} ProcessItemYieldsRows(seen: seq<Row>, row: Row, criteria: seq<Criterion>, item: Criterion,
                                                 consumer: Consumer)
    ensures ProcessItem(seen, row, criteria, item, consumer) == Consume(seen, RowsOfItem(row, criteria, item), consumer)
    decreases Size(item) + SizeAll(criteria), 1
  {
    match item
    case And(parts) =>
      SizeAllConcat(parts, criteria);
      ProcessYieldsRows(seen, row, parts + criteria, consumer);
    case Or(options) => ProcessOptionsYieldsRows(seen, row, criteria, options, consumer);
    case Leaf(_, _) => ProcessYieldsRows(seen, row + [item], criteria, consumer);
  }

  lemma {:induction false} ProcessOptionsYieldsRows(seen: seq<Row>, row: Row, criteria: seq<Criterion>,
                                                    options: seq<Criterion>, consumer: Consumer)
    ensures ProcessOptions(seen, row, criteria, options, consumer) ==
            Consume(seen, RowsOfOptions(row, criteria, options), consumer)
    decreases SizeAll(options) + SizeAll(criteria), 3
  {
    if options != [] {
      ProcessItemYieldsRows(seen, row, criteria, options[0], consumer);
      var first := ProcessItem(seen, row, criteria, options[0], consumer);
      ConsumeConcat(seen, RowsOfItem(row, criteria, options[0]), RowsOfOptions(row, criteria, options[1..]), consumer);
      if first.more {
        ProcessOptionsYieldsRows(first.seen, row, criteria, options[1..], consumer);
      }
    }
  }

  /** What Consume means: a prefix of the rows, cut just after the first one that the consumer refuses. */
  lemma {:induction false} ConsumeStopsForGood(seen: seq<Row>, rows: seq<Row>, consumer: Consumer) returns (k: nat)
    ensures k <= |rows| && Consume(seen, rows, consumer).seen == seen + rows[..k]
    ensures Consume(seen, rows, consumer).more ==> k == |rows|
    ensures !Consume(seen, rows, consumer).more ==> k > 0 && !consumer(seen + rows[..k])
    ensures forall j :: 0 < j < k ==> consumer(seen + rows[..j])
    decreases |rows|
  {
    if rows == [] {
      k := 0;
      assert seen + rows[..0] == seen;
    } else {
      var here := seen + [rows[0]];
      assert seen + rows[..1] == here;
      if consumer(here) {
        var l := ConsumeStopsForGood(here, rows[1..], consumer);
        k := l + 1;
        forall j | 0 <= j <= l ensures here + rows[1..][..j] == seen + rows[..j + 1] {
          assert rows[..j + 1] == [rows[0]] + rows[1..][..j];
        }
        forall j | 0 < j < k ensures consumer(seen + rows[..j]) {
          if j > 1 { assert here + rows[1..][..j - 1] == seen + rows[..j]; }
        }
      } else {
        k := 1;
      }
    }
  }

  /** CriteriaIterator, run with one consumer. */
  function Iterate(criteria: seq<Criterion>, consumer: Consumer): (r: Outcome) {
    if criteria == [] then Outcome([], true) else ProcessRemaining([], [], criteria, consumer)
  }

  /** The whole iterator: all rows up to and including the first one that the consumer refuses. */
  lemma IteratorYields(criteria: seq<Criterion>, consumer: Consumer) returns (k: nat)
    ensures var rows, r := YieldedRows(criteria), Iterate(criteria, consumer);
            && k <= |rows| && r.seen == rows[..k]
            && (if r.more then k == |rows| else k > 0 && !consumer(rows[..k]))
            && forall j :: 0 < j < k ==> consumer(rows[..j])
  {
    var rows := YieldedRows(criteria);
    if criteria != [] { ProcessYieldsRows([], [], criteria, consumer); }
    k := ConsumeStopsForGood([], rows, consumer);
    assert forall j :: 0 <= j <= |rows| ==> [] + rows[..j] == rows[..j];
  }

  // ----- validation

  /** Two plain criteria of one kind that may not repeat. */
  ghost predicate Conflicting(row: Row) {
    exists i, j :: 0 <= i < j < |row| && row[i].Leaf? && row[j].Leaf?
                   && row[i].kind == row[j].kind && row[i].kind != Function
  }

  predicate AllLeaves(row: Row) {
    forall i :: 0 <= i < |row| ==> row[i].Leaf?
  }

  lemma {:induction false} RowsAreLeaves(row: Row, criteria: seq<Criterion>)
    requires AllLeaves(row)
    ensures forall r :: r in Rows(row, criteria) ==> AllLeaves(r)
    decreases SizeAll(criteria), 2
  {
    if criteria != [] { ItemRowsAreLeaves(row, criteria[1..], criteria[0]); }
  }

  lemma {:induction false} ItemRowsAreLeaves(row: Row, criteria: seq<Criterion>, item: Criterion)
    requires AllLeaves(row)
    ensures forall r :: r in RowsOfItem(row, criteria, item) ==> AllLeaves(r)
    decreases Size(item) + SizeAll(criteria), 1
  {
    match item
    case And(parts) =>
      SizeAllConcat(parts, criteria);
      RowsAreLeaves(row, parts + criteria);
    case Or(options) => OptionRowsAreLeaves(row, criteria, options);
    case Leaf(_, _) => RowsAreLeaves(row + [item], criteria);
  }

  lemma {:induction false} OptionRowsAreLeaves(row: Row, criteria: seq<Criterion>, options: seq<Criterion>)
    requires AllLeaves(row)
    ensures forall r :: r in RowsOfOptions(row, criteria, options) ==> AllLeaves(r)
    decreases SizeAll(options) + SizeAll(criteria), 3
  {
    if options != [] {
      ItemRowsAreLeaves(row, criteria, options[0]);
      OptionRowsAreLeaves(row, criteria, options[1..]);
    }
  }

  /** Two criteria of one non-function kind conflict wherever they stand; function criteria never do. */
  lemma TwoOfAKindConflict(a: Row, x: Criterion, b: Row, y: Criterion, c: Row)
    requires x.Leaf? && y.Leaf? && x.kind == y.kind
    ensures x.kind != Function ==> Conflicting(a + [x] + b + [y] + c)
    ensures x.kind == Function ==> !Conflicting([x, y])
  {
    var row := a + [x] + b + [y] + c;
    assert row[|a|] == x && row[|a| + 1 + |b|] == y;
  }

  /** A row whose non-function criteria all have different kinds does not conflict. */
  lemma {:induction false} DifferentKindsDoNotConflict(row: Row, x: Criterion)
    requires x.Leaf? && !Conflicting(row)
    requires x.kind == Function || forall y :: y in row && y.Leaf? ==> y.kind != x.kind
    ensures !Conflicting(row + [x])
  {
    assert forall i :: 0 <= i < |row| ==> row[i] in row && (row + [x])[i] == row[i];
  }

  method RowIsValid(row: Row) returns (ok: bool)
    requires AllLeaves(row)
    ensures ok <==> !Conflicting(row)
  {
    var seenTypes: map<Kind, Criterion> := map[];
    var i := 0;
    while i < |row|
      invariant 0 <= i <= |row|
      invariant forall k :: k in seenTypes <==> k != Function && exists j :: 0 <= j < i && row[j].kind == k
      invariant !Conflicting(row[..i])
    {
      var kind := row[i].kind;
      if kind != Function {
        if kind in seenTypes {
          ghost var j :| 0 <= j < i && row[j].kind == kind;
          assert Conflicting(row);
          return false;
        }
        seenTypes := seenTypes[kind := row[i]];
      }
      i := i + 1;
    }
    assert row[..i] == row;
    return true;
  }

  lemma PickedConflicts(criteria: seq<Criterion>)
    ensures (forall r :: r in YieldedRows(criteria) ==> !Conflicting(r)) <==>
            forall row :: Picks(criteria, row) ==> !Conflicting(row)
  {
    forall row ensures row in YieldedRows(criteria) <==> criteria != [] && Picks(criteria, row) {
      YieldedRowsArePicks(criteria, row);
    }
  }

  /** ValidateCriteria accepts exactly when no choice that the tree allows repeats a kind other than Function. */
  method ValidateCriteria(criteria: seq<Criterion>) returns (ok: bool)
    ensures ok <==> forall r :: r in YieldedRows(criteria) ==> !Conflicting(r)
    ensures ok <==> forall row :: Picks(criteria, row) ==> !Conflicting(row)
  {
    PickedConflicts(criteria);
    var rows := YieldedRows(criteria);
    RowsAreLeaves([], criteria);
    var i := 0;
    while i < |rows|
      invariant 0 <= i <= |rows|
      invariant forall j :: 0 <= j < i ==> !Conflicting(rows[j])
    {
      assert rows[i] in Rows([], criteria);
      var fine := RowIsValid(rows[i]);
      if !fine { return false; }
      i := i + 1;
    }
    return true;
  }
}
