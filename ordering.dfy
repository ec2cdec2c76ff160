/**
 * Three-way comparison in Ruby's `<=>` convention: a negative answer means
 * "sorts before", zero means "equal", a positive answer means "sorts after".
 *
 * Ruby's String#<=> and Array#<=> are the same lexicographic rule over
 * different elements: compare position by position, the first difference
 * decides, and a proper prefix sorts first. `Lex` states that rule once;
 * `CompareStrings` and `CompareKeys` are its two uses.
 */
module Ordering {

  /** `cmp` is a total order written as a three-way comparison: it answers
      zero exactly on equal values, swapping its arguments negates the answer,
      and "at most" is transitive. */
  ghost predicate IsTotalOrder<T(!new)>(cmp: (T, T) -> int) {
    && (forall a, b :: cmp(a, b) == 0 <==> a == b)
    && (forall a, b :: cmp(a, b) == -cmp(b, a))
    && (forall a, b, c :: cmp(a, b) <= 0 && cmp(b, c) <= 0 ==> cmp(a, c) <= 0)
  }

  /** Ruby's `<=>` on one character. Strings are compared byte by byte in
      their UTF-8 encoding, and for UTF-8 that order is code-point order. */
  function CompareChars(a: char, b: char): int {
    if a < b then -1 else if a == b then 0 else 1
  }

  /** Lexicographic comparison of two sequences by the element comparison
      `cmp`. The answer is -1, 0 or 1, and zero only for sequences of the same
      length. */
  function Lex<T>(a: seq<T>, b: seq<T>, cmp: (T, T) -> int): (r: int)
    ensures -1 <= r <= 1
    ensures r == 0 ==> |a| == |b|
    decreases |a|
  {
    if |a| == 0 then (if |b| == 0 then 0 else -1)
    else if |b| == 0 then 1
    else
      var c := cmp(a[0], b[0]);
      if c < 0 then -1 else if c > 0 then 1 else Lex(a[1..], b[1..], cmp)
  }

  /** Ruby's String#<=>. */
  function CompareStrings(a: string, b: string): int {
    Lex(a, b, CompareChars)
  }

  /** Ruby's Array#<=> on arrays of strings, as used on the sort keys. */
  function CompareKeys(a: seq<string>, b: seq<string>): int {
    Lex(a, b, CompareStrings)
  }

  lemma {:induction false} LexZeroIffEqual<T(!new)>(a: seq<T>, b: seq<T>, cmp: (T, T) -> int)
    requires IsTotalOrder(cmp)
    ensures Lex(a, b, cmp) == 0 <==> a == b
    decreases |a|
  {
    if |a| > 0 && |b| > 0 && cmp(a[0], b[0]) == 0 {
      LexZeroIffEqual(a[1..], b[1..], cmp);
      if a[1..] == b[1..] {
        assert a == [a[0]] + a[1..] && b == [b[0]] + b[1..];
      }
    }
  }

  lemma {:induction false} LexAntisymmetric<T(!new)>(a: seq<T>, b: seq<T>, cmp: (T, T) -> int)
    requires IsTotalOrder(cmp)
    ensures Lex(a, b, cmp) == -Lex(b, a, cmp)
    decreases |a|
  {
    if |a| > 0 && |b| > 0 {
      assert cmp(a[0], b[0]) == -cmp(b[0], a[0]);
      if cmp(a[0], b[0]) == 0 {
        LexAntisymmetric(a[1..], b[1..], cmp);
      }
    }
  }

  lemma {:induction false} LexTransitive<T(!new)>(a: seq<T>, b: seq<T>, c: seq<T>, cmp: (T, T) -> int)
    requires IsTotalOrder(cmp)
    requires Lex(a, b, cmp) <= 0 && Lex(b, c, cmp) <= 0
    ensures Lex(a, c, cmp) <= 0
    decreases |a|
  {
    if |a| > 0 && |b| > 0 && |c| > 0 {
      var x, y := cmp(a[0], b[0]), cmp(b[0], c[0]);
      assert cmp(a[0], c[0]) <= 0;
      if x == 0 && y == 0 {
        LexTransitive(a[1..], b[1..], c[1..], cmp);
      }
    }
  }

  /** Lexicographic extension keeps the total-order laws of its elements. */
  lemma LexIsTotalOrder<T(!new)>(cmp: (T, T) -> int, lex: (seq<T>, seq<T>) -> int)
    requires IsTotalOrder(cmp)
    requires forall a, b :: lex(a, b) == Lex(a, b, cmp)
    ensures IsTotalOrder(lex)
  {
    forall a, b ensures lex(a, b) == 0 <==> a == b {
      LexZeroIffEqual(a, b, cmp);
    }
    forall a, b ensures lex(a, b) == -lex(b, a) {
      LexAntisymmetric(a, b, cmp);
    }
    forall a, b, c | lex(a, b) <= 0 && lex(b, c) <= 0 ensures lex(a, c) <= 0 {
      LexTransitive(a, b, c, cmp);
    }
  }

  /** String#<=> is a total order: zero exactly on equal strings. */
  lemma StringOrder()
    ensures IsTotalOrder(CompareStrings)
  {
    assert IsTotalOrder(CompareChars);
    LexIsTotalOrder(CompareChars, CompareStrings);
  }

  /** Array#<=> on string keys is a total order: zero exactly on equal keys. */
  lemma KeyOrder()
    ensures IsTotalOrder(CompareKeys)
  {
    StringOrder();
    LexIsTotalOrder(CompareStrings, CompareKeys);
  }
}
