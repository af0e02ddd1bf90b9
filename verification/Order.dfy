/**
 Three-way comparators and the laws they can satisfy.

 Every comparator of the version package answers -1, 0 or 1. This module says when such a
 function is a total preorder, and shows that two ways of building comparators keep that
 property: comparing by one criterion and then another, and comparing two sequences as if
 both went on for ever with the same padding element.
 */
module Order {

  ghost predicate Reflexive<T(!new)>(cmp: (T, T) -> int) {
    forall x :: cmp(x, x) == 0
  }

  ghost predicate SignAntisymmetric<T(!new)>(cmp: (T, T) -> int) {
    forall x, y :: -1 <= cmp(x, y) <= 1 && cmp(x, y) == -cmp(y, x)
  }

  ghost predicate Transitive<T(!new)>(cmp: (T, T) -> int) {
    forall x, y, z :: cmp(x, y) <= 0 && cmp(y, z) <= 0 ==> cmp(x, z) <= 0
  }

  /** A total preorder, as a three-way comparator. */
  ghost predicate Preorder<T(!new)>(cmp: (T, T) -> int) {
    Reflexive(cmp) && SignAntisymmetric(cmp) && Transitive(cmp)
  }

  /** How strict steps and ties combine along a chain of two comparisons. */
  lemma Chain<T(!new)>(cmp: (T, T) -> int, x: T, y: T, z: T)
    requires Preorder(cmp)
    ensures cmp(x, y) == 0 ==> cmp(x, z) == cmp(y, z)
    ensures cmp(y, z) == 0 ==> cmp(x, z) == cmp(x, y)
    ensures cmp(x, y) <= 0 && cmp(y, z) <= 0 ==> cmp(x, z) <= 0
    ensures cmp(x, y) < 0 && cmp(y, z) < 0 ==> cmp(x, z) < 0
  {
    assert cmp(x, y) == -cmp(y, x);
    assert cmp(y, z) == -cmp(z, y);
    assert cmp(x, z) == -cmp(z, x);
  }

  function CompareInt(x: int, y: int): (r: int) {
    if x < y then -1 else if x > y then 1 else 0
  }

  lemma CompareIntIsPreorder()
    ensures Preorder(CompareInt)
  {
  }

  /** The second criterion speaks only where the first one ties. */
  function Then(first: int, second: int): (r: int) {
    if first != 0 then first else second
  }

  function ThenBy<T>(f: (T, T) -> int, g: (T, T) -> int): (order: (T, T) -> int) {
    (x, y) => Then(f(x, y), g(x, y))
  }

  function Via<S, T>(key: S -> T, cmp: (T, T) -> int): (order: (S, S) -> int) {
    (x, y) => cmp(key(x), key(y))
  }

  lemma ThenByIsPreorder<T(!new)>(f: (T, T) -> int, g: (T, T) -> int)
    requires Preorder(f) && Preorder(g)
    ensures Preorder(ThenBy(f, g))
  {
    var h := ThenBy(f, g);
    forall x, y, z | h(x, y) <= 0 && h(y, z) <= 0
      ensures h(x, z) <= 0
    {
      Chain(f, x, y, z);
      Chain(g, x, y, z);
    }
    assert SignAntisymmetric(h) by {
      forall x, y ensures -1 <= h(x, y) <= 1 && h(x, y) == -h(y, x) {
        assert f(x, y) == -f(y, x);
        assert g(x, y) == -g(y, x);
      }
    }
  }

  lemma ViaIsPreorder<S(!new), T(!new)>(key: S -> T, cmp: (T, T) -> int)
    requires Preorder(cmp)
    ensures Preorder(Via(key, cmp))
  {
    var h := Via(key, cmp);
    forall x, y, z | h(x, y) <= 0 && h(y, z) <= 0
      ensures h(x, z) <= 0
    {
      Chain(cmp, key(x), key(y), key(z));
    }
    assert SignAntisymmetric(h) by {
      forall x, y ensures -1 <= h(x, y) <= 1 && h(x, y) == -h(y, x) {
        assert cmp(key(x), key(y)) == -cmp(key(y), key(x));
      }
    }
  }

  // ----- padded lexicographic order

  /** Element i of the infinite sequence that continues s with pad. */
  function At<T>(s: seq<T>, pad: T, i: nat): (x: T) {
    if i < |s| then s[i] else pad
  }

  function Tail<T>(s: seq<T>): (t: seq<T>) {
    if s == [] then [] else s[1..]
  }

  /** Lexicographic comparison of a and b, both continued with pad. */
  function Lex<T>(cmp: (T, T) -> int, pad: T, a: seq<T>, b: seq<T>): (r: int)
    decreases |a| + |b|
  {
    if a == [] && b == [] then 0
    else Then(cmp(At(a, pad, 0), At(b, pad, 0)), Lex(cmp, pad, Tail(a), Tail(b)))
  }

  function LexBy<T>(cmp: (T, T) -> int, pad: T): (order: (seq<T>, seq<T>) -> int) {
    (a, b) => Lex(cmp, pad, a, b)
  }

  lemma LexUnroll<T>(cmp: (T, T) -> int, pad: T, a: seq<T>, b: seq<T>)
    requires cmp(pad, pad) == 0
    ensures Lex(cmp, pad, a, b) ==
            Then(cmp(At(a, pad, 0), At(b, pad, 0)), Lex(cmp, pad, Tail(a), Tail(b)))
  {
  }

  /** The infinite sequences of a and b agree, under cmp, below index i. */
  ghost predicate AgreeBelow<T>(cmp: (T, T) -> int, pad: T, a: seq<T>, b: seq<T>, i: nat) {
    forall j: nat :: j < i ==> cmp(At(a, pad, j), At(b, pad, j)) == 0
  }

  /**
   What Lex means, without its recursion: the first index at which the two infinite padded
   sequences differ decides, and the answer is 0 when there is none.
   */
  lemma {:induction false} LexFirstDifference<T>(cmp: (T, T) -> int, pad: T, a: seq<T>, b: seq<T>)
    requires cmp(pad, pad) == 0
    ensures Lex(cmp, pad, a, b) == 0 ==> forall i: nat :: AgreeBelow(cmp, pad, a, b, i)
    ensures Lex(cmp, pad, a, b) != 0 ==>
              exists i: nat :: AgreeBelow(cmp, pad, a, b, i)
                               && cmp(At(a, pad, i), At(b, pad, i)) == Lex(cmp, pad, a, b)
    decreases |a| + |b|
  {
    if a == [] && b == [] {
    } else {
      var a', b' := Tail(a), Tail(b);
      LexFirstDifference(cmp, pad, a', b');
      forall j: nat
        ensures At(a, pad, j + 1) == At(a', pad, j) && At(b, pad, j + 1) == At(b', pad, j)
      {
      }
      if cmp(At(a, pad, 0), At(b, pad, 0)) != 0 {
        assert AgreeBelow(cmp, pad, a, b, 0);
      } else if Lex(cmp, pad, a', b') == 0 {
        forall i: nat ensures AgreeBelow(cmp, pad, a, b, i) {
          assert AgreeBelow(cmp, pad, a', b', i);
          forall j: nat | j < i ensures cmp(At(a, pad, j), At(b, pad, j)) == 0 {
            if j > 0 { assert At(a, pad, j - 1 + 1) == At(a', pad, j - 1); }
          }
        }
      } else {
        var i: nat :| AgreeBelow(cmp, pad, a', b', i)
                      && cmp(At(a', pad, i), At(b', pad, i)) == Lex(cmp, pad, a', b');
        assert AgreeBelow(cmp, pad, a, b, i + 1) by {
          forall j: nat | j < i + 1 ensures cmp(At(a, pad, j), At(b, pad, j)) == 0 {
            if j > 0 { assert At(a, pad, j - 1 + 1) == At(a', pad, j - 1); }
          }
        }
      }
    }
  }

  lemma {:induction false} LexReflexive<T(!new)>(cmp: (T, T) -> int, pad: T, a: seq<T>)
    requires Preorder(cmp)
    ensures Lex(cmp, pad, a, a) == 0
    decreases |a|
  {
    if a != [] { LexReflexive(cmp, pad, a[1..]); }
  }

  lemma {:induction false} LexAntisymmetric<T(!new)>(cmp: (T, T) -> int, pad: T, a: seq<T>, b: seq<T>)
    requires Preorder(cmp)
    ensures -1 <= Lex(cmp, pad, a, b) <= 1
    ensures Lex(cmp, pad, a, b) == -Lex(cmp, pad, b, a)
    decreases |a| + |b|
  {
    if a != [] || b != [] {
      assert cmp(At(a, pad, 0), At(b, pad, 0)) == -cmp(At(b, pad, 0), At(a, pad, 0));
      LexAntisymmetric(cmp, pad, Tail(a), Tail(b));
    }
  }

  lemma {:induction false} LexTransitive<T(!new)>(cmp: (T, T) -> int, pad: T, a: seq<T>, b: seq<T>, c: seq<T>)
    requires Preorder(cmp)
    requires Lex(cmp, pad, a, b) <= 0 && Lex(cmp, pad, b, c) <= 0
    ensures Lex(cmp, pad, a, c) <= 0
    decreases |a| + |b| + |c|
  {
    if a == [] && b == [] && c == [] {
    } else {
      LexUnroll(cmp, pad, a, b);
      LexUnroll(cmp, pad, b, c);
      LexUnroll(cmp, pad, a, c);
      Chain(cmp, At(a, pad, 0), At(b, pad, 0), At(c, pad, 0));
      if cmp(At(a, pad, 0), At(b, pad, 0)) == 0 && cmp(At(b, pad, 0), At(c, pad, 0)) == 0 {
        LexTransitive(cmp, pad, Tail(a), Tail(b), Tail(c));
      } else {
        assert cmp(At(b, pad, 0), At(a, pad, 0)) == -cmp(At(a, pad, 0), At(b, pad, 0));
      }
    }
  }

  lemma LexIsPreorder<T(!new)>(cmp: (T, T) -> int, pad: T)
    requires Preorder(cmp)
    ensures Preorder(LexBy(cmp, pad))
  {
    var h := LexBy(cmp, pad);
    forall a ensures h(a, a) == 0 {
      LexReflexive(cmp, pad, a);
    }
    forall a, b ensures -1 <= h(a, b) <= 1 && h(a, b) == -h(b, a) {
      LexAntisymmetric(cmp, pad, a, b);
    }
    forall a, b, c | h(a, b) <= 0 && h(b, c) <= 0 ensures h(a, c) <= 0 {
      LexTransitive(cmp, pad, a, b, c);
    }
  }

  /** A common prefix does not matter. */
  lemma {:induction false} LexSkipPrefix<T(!new)>(cmp: (T, T) -> int, pad: T, p: seq<T>, a: seq<T>, b: seq<T>)
    requires Reflexive(cmp)
    ensures Lex(cmp, pad, p + a, p + b) == Lex(cmp, pad, a, b)
  {
    if p == [] {
      assert p + a == a && p + b == b;
    } else {
      assert (p + a)[1..] == p[1..] + a && (p + b)[1..] == p[1..] + b;
      LexSkipPrefix(cmp, pad, p[1..], a, b);
      assert cmp(p[0], p[0]) == 0;
      LexUnroll(cmp, pad, p + a, p + b);
    }
  }

  function Drop<T>(s: seq<T>, i: nat): (t: seq<T>) {
    if i <= |s| then s[i..] else []
  }

  /** One step of a loop that walks both sequences by index. */
  lemma LexStep<T>(cmp: (T, T) -> int, pad: T, a: seq<T>, b: seq<T>, i: nat)
    requires cmp(pad, pad) == 0
    ensures Lex(cmp, pad, Drop(a, i), Drop(b, i)) ==
            Then(cmp(At(a, pad, i), At(b, pad, i)), Lex(cmp, pad, Drop(a, i + 1), Drop(b, i + 1)))
  {
    LexUnroll(cmp, pad, Drop(a, i), Drop(b, i));
    assert Tail(Drop(a, i)) == Drop(a, i + 1);
    assert Tail(Drop(b, i)) == Drop(b, i + 1);
  }
}
