/**
 Decimal digit strings: their numeric value, Go's string comparison, and the three ways the
 version comparators turn one into the other (right padding, left padding, and "trim leading
 zeros, the longer one wins, else compare as text").
 */
module Decimal {
  import opened Order
  import opened Prelude

  predicate IsDigit(c: char) {
    '0' <= c <= '9'
  }

  predicate AllDigits(s: string) {
    forall i :: 0 <= i < |s| ==> IsDigit(s[i])
  }

  /** A non-empty digit string, what `\d+` captures. */
  type Digits = s: string | s != "" && AllDigits(s) witness "0"

  /** A possibly empty digit string, what `\d*` captures. */
  type Numeral = s: string | AllDigits(s) witness ""

  /** The number a digit string denotes (0 for the empty string). */
  function Value(s: string): (n: nat)
    requires AllDigits(s)
  {
    if s == "" then 0
    else 10 * Value(s[..|s| - 1]) + (s[|s| - 1] - '0') as int
  }

  function Zeros(n: nat): (s: string)
    ensures |s| == n && AllDigits(s)
    ensures forall i :: 0 <= i < n ==> s[i] == '0'
  {
    seq(n, _ => '0')
  }

  // ----- scanning

  /** The length of the longest prefix of s whose characters all satisfy p. */
  function Run(p: char -> bool, s: string): (k: nat)
    ensures k <= |s|
    ensures forall i :: 0 <= i < k ==> p(s[i])
    ensures k < |s| ==> !p(s[k])
  {
    if s != "" && p(s[0]) then 1 + Run(p, s[1..]) else 0
  }

  lemma {:induction false} RunIs(p: char -> bool, s: string, k: nat)
    requires k <= |s| && (forall i :: 0 <= i < k ==> p(s[i])) && (k < |s| ==> !p(s[k]))
    ensures Run(p, s) == k
  {
    if k > 0 {
      assert p(s[0]);
      RunIs(p, s[1..], k - 1);
    }
  }

  // ----- text comparison

  function CompareChar(c: char, d: char): (r: int) {
    if c < d then -1 else if c > d then 1 else 0
  }

  /** Go's strings.Compare: lexicographic, a proper prefix is smaller. */
  function CompareText(a: string, b: string): (r: int) {
    if a == "" && b == "" then 0
    else if a == "" then -1
    else if b == "" then 1
    else Then(CompareChar(a[0], b[0]), CompareText(a[1..], b[1..]))
  }

  lemma {:induction false} CompareTextTransitive(a: string, b: string, c: string)
    requires CompareText(a, b) <= 0 && CompareText(b, c) <= 0
    ensures CompareText(a, c) <= 0
  {
    if a != "" && b != "" && c != "" && a[0] == b[0] == c[0] {
      CompareTextTransitive(a[1..], b[1..], c[1..]);
    }
  }

  lemma {:induction false} CompareTextAntisymmetric(a: string, b: string)
    ensures -1 <= CompareText(a, b) <= 1
    ensures CompareText(a, b) == -CompareText(b, a)
  {
    if a != "" && b != "" {
      CompareTextAntisymmetric(a[1..], b[1..]);
    }
  }

  /** Text comparison ties exactly on equal strings. */
  lemma {:induction false} CompareTextZero(a: string, b: string)
    ensures CompareText(a, b) == 0 <==> a == b
  {
    if a != "" && b != "" {
      CompareTextZero(a[1..], b[1..]);
      assert a == [a[0]] + a[1..] && b == [b[0]] + b[1..];
    }
  }

  lemma CompareTextIsPreorder()
    ensures Preorder(CompareText)
  {
    forall a ensures CompareText(a, a) == 0 {
      CompareTextZero(a, a);
    }
    forall a, b ensures -1 <= CompareText(a, b) <= 1 && CompareText(a, b) == -CompareText(b, a) {
      CompareTextAntisymmetric(a, b);
    }
    forall a, b, c | CompareText(a, b) <= 0 && CompareText(b, c) <= 0 ensures CompareText(a, c) <= 0 {
      CompareTextTransitive(a, b, c);
    }
  }

  lemma {:induction false} CompareTextSnoc(a: string, b: string, c: char, d: char)
    requires |a| == |b|
    ensures CompareText(a + [c], b + [d]) == Then(CompareText(a, b), CompareChar(c, d))
  {
    if a == "" {
      assert a + [c] == [c] && b + [d] == [d];
    } else {
      assert (a + [c])[1..] == a[1..] + [c] && (b + [d])[1..] == b[1..] + [d];
      CompareTextSnoc(a[1..], b[1..], c, d);
    }
  }

  lemma {:induction false} CompareTextCommonPrefix(p: string, a: string, b: string)
    ensures CompareText(p + a, p + b) == CompareText(a, b)
  {
    if p == "" {
      assert p + a == a && p + b == b;
    } else {
      assert (p + a)[1..] == p[1..] + a && (p + b)[1..] == p[1..] + b;
      CompareTextCommonPrefix(p[1..], a, b);
    }
  }

  /** The first character that differs decides, and a proper prefix is smaller. */
  lemma FirstCharacterDecides(p: string, c: char, s: string, d: char, t: string)
    ensures c < d ==> CompareText(p + ([c] + s), p + ([d] + t)) == -1
    ensures CompareText(p, p + ([c] + s)) == -1
  {
    CompareTextCommonPrefix(p, [c] + s, [d] + t);
    CompareTextCommonPrefix(p, "", [c] + s);
    assert p + "" == p;
  }

  // ----- numeric order as text order

  lemma AppendDigit(x: int, y: int, c: char, d: char)
    requires IsDigit(c) && IsDigit(d)
    ensures CompareInt(10 * x + (c - '0') as int, 10 * y + (d - '0') as int) ==
            Then(CompareInt(x, y), CompareChar(c, d))
  {
  }

  /** On digit strings of one length, text order is numeric order. */
  lemma {:induction false} SameLengthTextIsNumeric(a: string, b: string)
    requires AllDigits(a) && AllDigits(b) && |a| == |b|
    ensures CompareText(a, b) == CompareInt(Value(a), Value(b))
  {
    if a != "" {
      var k := |a| - 1;
      SameLengthTextIsNumeric(a[..k], b[..k]);
      CompareTextSnoc(a[..k], b[..k], a[k], b[k]);
      AppendDigit(Value(a[..k]), Value(b[..k]), a[k], b[k]);
      assert a == a[..k] + [a[k]] && b == b[..k] + [b[k]];
    }
  }

  lemma {:induction false} ValueOfLeadingZero(s: string)
    requires AllDigits(s)
    ensures Value(['0'] + s) == Value(s)
  {
    if s != "" {
      var k := |s| - 1;
      ValueOfLeadingZero(s[..k]);
      assert (['0'] + s)[..k + 1] == ['0'] + s[..k];
    }
  }

  lemma {:induction false} ValueOfLeftPadded(n: nat, s: string)
    requires AllDigits(s)
    ensures AllDigits(Zeros(n) + s) && Value(Zeros(n) + s) == Value(s)
  {
    if n == 0 {
      assert Zeros(0) + s == s;
    } else {
      ValueOfLeftPadded(n - 1, s);
      ValueOfLeadingZero(Zeros(n - 1) + s);
      assert Zeros(n) + s == ['0'] + (Zeros(n - 1) + s);
    }
  }

  /** strings.TrimLeft(s, "0"). */
  function TrimLeadingZeros(s: string): (t: string)
    ensures AllDigits(s) ==> AllDigits(t)
    ensures t != "" ==> t[0] != '0'
  {
    if s != "" && s[0] == '0' then TrimLeadingZeros(s[1..]) else s
  }

  lemma {:induction false} ValueOfTrimmed(s: string)
    requires AllDigits(s)
    ensures Value(TrimLeadingZeros(s)) == Value(s)
  {
    if s != "" && s[0] == '0' {
      ValueOfTrimmed(s[1..]);
      ValueOfLeadingZero(s[1..]);
      assert s == ['0'] + s[1..];
    }
  }

  lemma {:induction false} LongerIsLarger(a: string, b: string)
    requires AllDigits(a) && AllDigits(b)
    requires |a| > |b| && a[0] != '0'
    ensures Value(a) > Value(b)
  {
    var k := |a| - 1;
    if k == 0 {
      assert a[..k] == "";
    } else if b == "" {
      LongerIsLarger(a[..k], "");
    } else {
      LongerIsLarger(a[..k], b[..|b| - 1]);
    }
  }

  /** The comparison RPM makes on two numeric segments. */
  function CompareTrimmed(a: string, b: string): (r: int) {
    var x, y := TrimLeadingZeros(a), TrimLeadingZeros(b);
    if |x| > |y| then 1 else if |y| > |x| then -1 else CompareText(x, y)
  }

  /** "Trim zeros, the longer one wins, else compare as text" is numeric comparison. */
  lemma CompareTrimmedIsNumeric(a: string, b: string)
    requires AllDigits(a) && AllDigits(b)
    ensures CompareTrimmed(a, b) == CompareInt(Value(a), Value(b))
  {
    var x, y := TrimLeadingZeros(a), TrimLeadingZeros(b);
    ValueOfTrimmed(a);
    ValueOfTrimmed(b);
    if |x| > |y| {
      LongerIsLarger(x, y);
    } else if |y| > |x| {
      LongerIsLarger(y, x);
    } else {
      SameLengthTextIsNumeric(x, y);
    }
  }

  // ----- printing and reading integers

  /** fmt's %d on a natural number. */
  function PrintNat(n: nat): (s: Digits)
    ensures Value(s) == n
    decreases n
  {
    var last := [('0' as int + n % 10) as char];
    if n < 10 then assert last[..0] == ""; last
    else
      var front := PrintNat(n / 10);
      assert (front + last)[..|front|] == front;
      front + last
  }

  /** fmt's %d. */
  function PrintInt(n: int): (s: string) {
    if n < 0 then "-" + PrintNat(-n) else PrintNat(n)
  }

  const MAX_INT := 0x7fff_ffff_ffff_ffff
  const MIN_INT := -0x8000_0000_0000_0000

  /** strconv.Atoi on a 64-bit platform: an optional sign, digits, and a value that fits. */
  function Atoi(s: string): (r: Option<int>)
    ensures r.Some? ==> MIN_INT <= r.value <= MAX_INT
  {
    var body := if s != "" && (s[0] == '-' || s[0] == '+') then s[1..] else s;
    if body == "" || !AllDigits(body) then None
    else
      var n: int := Value(body) * (if s[0] == '-' then -1 else 1);
      if MIN_INT <= n <= MAX_INT then Some(n) else None
  }

  /** What is read: digits with an optional sign whose value fits, and nothing else. */
  lemma AtoiReads(d: Digits, s: string)
    ensures Value(d) <= MAX_INT ==> Atoi(d) == Atoi("+" + d) == Some(Value(d))
    ensures Value(d) <= MAX_INT ==> Atoi("-" + d).Some? && Atoi("-" + d).value + Value(d) == 0
    ensures Value(d) > MAX_INT ==> Atoi(d) == Atoi("+" + d) == None
    ensures Value(d) > MAX_INT + 1 ==> Atoi("-" + d) == None
    ensures Atoi("") == Atoi("+") == Atoi("-") == None
    ensures !AllDigits(s) && s[0] != '+' && s[0] != '-' ==> Atoi(s) == None
  {
    assert IsDigit(d[0]);
    assert ("+" + d)[1..] == d && ("-" + d)[1..] == d;
  }

  /** Reading back a printed machine integer gives that integer. */
  lemma AtoiOfPrintInt(n: int)
    requires MIN_INT <= n <= MAX_INT
    ensures Atoi(PrintInt(n)) == Some(n)
  {
    if n < 0 {
      assert PrintInt(n)[1..] == PrintNat(-n);
    } else {
      assert IsDigit(PrintInt(n)[0]);
    }
  }
}
