/**
 * Order-independent comparison of two rule arrays, as the `insync?` of
 * `audit_rules` and `access_rules` does it: sort each side with a comparator
 * block, then compare the sorted arrays with `==`.
 *
 * Ruby's `sort` is not stable and its algorithm is not part of the model:
 * `Sort` is an insertion sort, and all that is used of it is that its result
 * is ordered by the comparator and is a permutation of its input. When the
 * comparator is a total order (it answers zero only on equal records) that
 * result is the only such permutation, so any correct sort gives the same
 * answer.
 */
module RuleSets {
  import opened Ordering

  /** A comparator whose "at most" is total and transitive; ties between
      different values are allowed. */
  ghost predicate IsTotalPreorder<T(!new)>(cmp: (T, T) -> int) {
    && (forall a, b :: cmp(a, b) <= 0 || cmp(b, a) <= 0)
    && (forall a, b, c :: cmp(a, b) <= 0 && cmp(b, c) <= 0 ==> cmp(a, c) <= 0)
  }

  /** `s` is in non-decreasing order under `cmp`. */
  ghost predicate Sorted<T>(s: seq<T>, cmp: (T, T) -> int) {
    forall i, j :: 0 <= i < j < |s| ==> cmp(s[i], s[j]) <= 0
  }

  /** A comparator that never ties two different values: each sorting at
      most the other makes them equal. */
  ghost predicate IsAntisymmetric<T(!new)>(cmp: (T, T) -> int) {
    forall a, b :: cmp(a, b) <= 0 && cmp(b, a) <= 0 ==> a == b
  }

  /** The first element of a sorted sequence is every element, or sorts at
      most it. */
  lemma HeadIsLeast<T>(s: seq<T>, y: T, cmp: (T, T) -> int)
    requires Sorted(s, cmp)
    requires y in multiset(s)
    ensures s[0] == y || cmp(s[0], y) <= 0
  {
  }

  /** Putting in front an element that sorts at most every element keeps a
      sequence sorted. */
  lemma ConsSorted<T(!new)>(h: T, t: seq<T>, cmp: (T, T) -> int)
    requires Sorted(t, cmp)
    requires forall y :: y in multiset(t) ==> cmp(h, y) <= 0
    ensures Sorted([h] + t, cmp)
  {
    forall i, j | 0 <= i < j < |t| + 1 ensures cmp(([h] + t)[i], ([h] + t)[j]) <= 0 {
      if i == 0 {
        assert t[j - 1] in multiset(t);
      }
    }
  }

  /** Dropping the head of a sorted sequence leaves a sorted sequence of
      the remaining elements. */
  lemma SortedTail<T>(s: seq<T>, cmp: (T, T) -> int)
    requires Sorted(s, cmp) && |s| > 0
    ensures Sorted(s[1..], cmp)
    ensures multiset(s[1..]) == multiset(s) - multiset{s[0]}
  {
    assert s == [s[0]] + s[1..];
  }

  /** The step of `Insert` that stops in front of the head of `s`. */
  lemma InsertBeforeHead<T(!new)>(x: T, s: seq<T>, cmp: (T, T) -> int)
    requires |s| > 0 && cmp(x, s[0]) <= 0
    ensures IsTotalPreorder(cmp) && Sorted(s, cmp) ==> Sorted([x] + s, cmp)
  {
    if IsTotalPreorder(cmp) && Sorted(s, cmp) {
      forall y | y in multiset(s) ensures cmp(x, y) <= 0 {
        HeadIsLeast(s, y, cmp);
      }
      ConsSorted(x, s, cmp);
    }
  }

  /** The head of `s` sorts at most every element of `rest`, which holds the
      tail of `s` and an `x` that sorts after the head. */
  lemma HeadBeforeRest<T(!new)>(x: T, s: seq<T>, rest: seq<T>, cmp: (T, T) -> int)
    requires IsTotalPreorder(cmp) && Sorted(s, cmp) && |s| > 0 && cmp(x, s[0]) > 0
    requires Sorted(rest, cmp) && multiset(rest) == multiset(s[1..]) + multiset{x}
    ensures Sorted([s[0]] + rest, cmp)
  {
    forall y | y in multiset(rest) ensures cmp(s[0], y) <= 0 {
      if y != x {
        assert s == [s[0]] + s[1..];
        HeadIsLeast(s, y, cmp);
      }
    }
    ConsSorted(s[0], rest, cmp);
  }

  /** The step of `Insert` that passes `x` over the head of `s`. */
  lemma InsertAfterHead<T(!new)>(x: T, s: seq<T>, rest: seq<T>, cmp: (T, T) -> int)
    requires |s| > 0 && cmp(x, s[0]) > 0
    requires multiset(rest) == multiset(s[1..]) + multiset{x}
    requires IsTotalPreorder(cmp) && Sorted(s[1..], cmp) ==> Sorted(rest, cmp)
    ensures IsTotalPreorder(cmp) && Sorted(s, cmp) ==> Sorted([s[0]] + rest, cmp)
  {
    if IsTotalPreorder(cmp) && Sorted(s, cmp) {
      SortedTail(s, cmp);
      HeadBeforeRest(x, s, rest, cmp);
    }
  }

  /** Puts `x` before the first element it does not sort after. */
  function Insert<T(!new)>(x: T, s: seq<T>, cmp: (T, T) -> int): (r: seq<T>)
    ensures multiset(r) == multiset(s) + multiset{x}
    ensures IsTotalPreorder(cmp) && Sorted(s, cmp) ==> Sorted(r, cmp)
  {
    if |s| == 0 then [x]
    else if cmp(x, s[0]) <= 0 then
      InsertBeforeHead(x, s, cmp);
      [x] + s
    else
      var rest := Insert(x, s[1..], cmp);
      assert s == [s[0]] + s[1..];
      InsertAfterHead(x, s, rest, cmp);
      [s[0]] + rest
  }

  /** The `sort` of a rule array with a comparator block: a permutation of
      the input, in non-decreasing order whenever the comparator is a total
      preorder. */
  function Sort<T(!new)>(s: seq<T>, cmp: (T, T) -> int): (r: seq<T>)
    ensures multiset(r) == multiset(s)
    ensures IsTotalPreorder(cmp) ==> Sorted(r, cmp)
  {
    if |s| == 0 then []
    else
      assert s == [s[0]] + s[1..];
      Insert(s[0], Sort(s[1..], cmp), cmp)
  }

  /** The rule-set `insync?`: both sides sorted, then compared with `==`.
      Both arrays are values here, so the comparison leaves them as they were. */
  function InSync<T(==,!new)>(current: seq<T>, desired: seq<T>, cmp: (T, T) -> int): bool {
    Sort(current, cmp) == Sort(desired, cmp)
  }

  lemma TotalOrderIsTotalPreorder<T(!new)>(cmp: (T, T) -> int)
    requires IsTotalOrder(cmp)
    ensures IsTotalPreorder(cmp)
  {
    forall a, b ensures cmp(a, b) <= 0 || cmp(b, a) <= 0 {
      assert cmp(a, b) == -cmp(b, a);
    }
  }

  lemma TotalOrderIsAntisymmetric<T(!new)>(cmp: (T, T) -> int)
    requires IsTotalOrder(cmp)
    ensures IsAntisymmetric(cmp)
  {
    forall a, b | cmp(a, b) <= 0 && cmp(b, a) <= 0 ensures a == b {
      assert cmp(a, b) == -cmp(b, a);
    }
  }

  /** Two sorted sequences with the same elements start with the same one
      (each head is the other or sorts at most it, and the comparator has no
      ties), and what follows is again sorted with the same elements. */
  lemma SameHead<T(!new)>(a: seq<T>, b: seq<T>, cmp: (T, T) -> int)
    requires IsAntisymmetric(cmp)
    requires Sorted(a, cmp) && Sorted(b, cmp)
    requires multiset(a) == multiset(b) && |a| > 0
    ensures |b| > 0 && a[0] == b[0]
    ensures Sorted(a[1..], cmp) && Sorted(b[1..], cmp)
    ensures multiset(a[1..]) == multiset(b[1..])
  {
    assert a[0] in multiset(b);
    assert b[0] in multiset(a);
    HeadIsLeast(a, b[0], cmp);
    HeadIsLeast(b, a[0], cmp);
    SortedTail(a, cmp);
    SortedTail(b, cmp);
  }

  /** Under a comparator without ties there is only one sorted arrangement
      of a multiset: two sorted sequences with the same elements are equal. */
  lemma {:induction false} SortedPermutationsEqual<T(!new)>(a: seq<T>, b: seq<T>, cmp: (T, T) -> int)
    requires IsAntisymmetric(cmp)
    requires Sorted(a, cmp) && Sorted(b, cmp)
    requires multiset(a) == multiset(b)
    ensures a == b
    decreases |a|
  {
    if |a| == 0 {
      assert |multiset(b)| == 0;
    } else {
      SameHead(a, b, cmp);
      SortedPermutationsEqual(a[1..], b[1..], cmp);
      assert a == [a[0]] + a[1..] && b == [b[0]] + b[1..];
    }
  }

  /** Sorting cannot make different multisets equal: whatever the
      comparator, two sides in sync hold the same records as many times. */
  lemma InSyncImpliesSameMultiset<T(!new)>(current: seq<T>, desired: seq<T>, cmp: (T, T) -> int)
    ensures InSync(current, desired, cmp) ==> multiset(current) == multiset(desired)
  {
    assert multiset(Sort(current, cmp)) == multiset(current);
    assert multiset(Sort(desired, cmp)) == multiset(desired);
  }

  /** Under a total order the two sides are in sync exactly when they hold
      the same records, each the same number of times. */
  lemma InSyncIffSameMultiset<T(!new)>(current: seq<T>, desired: seq<T>, cmp: (T, T) -> int)
    requires IsTotalOrder(cmp)
    ensures InSync(current, desired, cmp) <==> multiset(current) == multiset(desired)
  {
    if multiset(current) == multiset(desired) {
      TotalOrderIsTotalPreorder(cmp);
      TotalOrderIsAntisymmetric(cmp);
      SortedPermutationsEqual(Sort(current, cmp), Sort(desired, cmp), cmp);
    } else {
      InSyncImpliesSameMultiset(current, desired, cmp);
    }
  }

  /** Reordering either side does not change the answer. */
  lemma InSyncOrderIndependent<T(!new)>(current: seq<T>, current': seq<T>, desired: seq<T>, desired': seq<T>, cmp: (T, T) -> int)
    requires IsTotalOrder(cmp)
    requires multiset(current') == multiset(current) && multiset(desired') == multiset(desired)
    ensures InSync(current', desired', cmp) == InSync(current, desired, cmp)
  {
    InSyncIffSameMultiset(current, desired, cmp);
    InSyncIffSameMultiset(current', desired', cmp);
  }

  /** Duplicates count: an extra copy of one element on either side, or
      sides of different lengths, are never in sync. */
  lemma NotInSyncWithExtraCopy<T(!new)>(rules: seq<T>, i: nat, cmp: (T, T) -> int)
    requires i < |rules|
    ensures !InSync(rules, rules + [rules[i]], cmp)
    ensures !InSync(rules + [rules[i]], rules, cmp)
  {
    var extra := rules + [rules[i]];
    assert multiset(extra) == multiset(rules) + multiset{rules[i]};
    InSyncImpliesSameMultiset(rules, extra, cmp);
    InSyncImpliesSameMultiset(extra, rules, cmp);
  }

  lemma NotInSyncWhenLengthsDiffer<T(!new)>(current: seq<T>, desired: seq<T>, cmp: (T, T) -> int)
    requires |current| != |desired|
    ensures !InSync(current, desired, cmp)
  {
    InSyncImpliesSameMultiset(current, desired, cmp);
    assert |multiset(current)| != |multiset(desired)|;
  }
}
