/** Three-way comparisons and the lexicographic order they induce on sequences. */
module Lexicographic {

  /** A three-way comparison of a total order: -1, 0 or 1. */
  ghost predicate IsOrder<T(!new)>(compare: (T, T) -> int) {
    && (forall a, b :: compare(a, b) in {-1, 0, 1})
    && (forall a, b :: compare(a, b) == 0 <==> a == b)
    && (forall a, b :: compare(a, b) == -compare(b, a))
    && (forall a, b, c :: compare(a, b) == -1 && compare(b, c) == -1 ==> compare(a, c) == -1)
  }

  function CompareInt(a: int, b: int): int {
    if a < b then -1 else if b < a then 1 else 0
  }

  function CompareChar(a: char, b: char): int {
    CompareInt(a as int, b as int)
  }

  lemma CharOrder()
    ensures IsOrder(CompareChar)
  {
  }

  /** The first difference decides; a proper prefix comes first. */
  function CompareSeq<T>(compare: (T, T) -> int, a: seq<T>, b: seq<T>): int {
    if a == [] || b == [] then CompareInt(|a|, |b|)
    else
      var c := compare(a[0], b[0]);
      if c != 0 then c else CompareSeq(compare, a[1..], b[1..])
  }

  lemma {:induction false} SeqAntisymmetric<T(!new)>(compare: (T, T) -> int, a: seq<T>, b: seq<T>)
    requires IsOrder(compare)
    ensures CompareSeq(compare, a, b) in {-1, 0, 1}
    ensures CompareSeq(compare, a, b) == -CompareSeq(compare, b, a)
    ensures CompareSeq(compare, a, b) == 0 <==> a == b
  {
    if a != [] && b != [] {
      SeqAntisymmetric(compare, a[1..], b[1..]);
      assert a == [a[0]] + a[1..] && b == [b[0]] + b[1..];
      assert compare(a[0], b[0]) == -compare(b[0], a[0]);
    }
  }

  lemma {:induction false} SeqTransitive<T(!new)>(compare: (T, T) -> int, a: seq<T>, b: seq<T>, c: seq<T>)
    requires IsOrder(compare) && CompareSeq(compare, a, b) == -1 && CompareSeq(compare, b, c) == -1
    ensures CompareSeq(compare, a, c) == -1
  {
    if a != [] && b != [] && c != [] {
      var x, y, z := a[0], b[0], c[0];
      if compare(x, y) == 0 && compare(y, z) == 0 {
        SeqTransitive(compare, a[1..], b[1..], c[1..]);
      } else {
        assert compare(x, z) == -1;
      }
    }
  }

  /** Where two sequences first differ, stated without recursion. */
  ghost predicate FirstDifference<T(!new)>(compare: (T, T) -> int, a: seq<T>, b: seq<T>, k: nat) {
    && k <= |a| && k <= |b| && a[..k] == b[..k]
    && (if k < |a| && k < |b| then compare(a[k], b[k]) == -1 else k == |a| && k < |b|)
  }

  lemma {:induction false} SeqLessMeans<T(!new)>(compare: (T, T) -> int, a: seq<T>, b: seq<T>)
    requires IsOrder(compare)
    ensures CompareSeq(compare, a, b) == -1 <==> exists k: nat :: FirstDifference(compare, a, b, k)
  {
    if a == [] || b == [] {
      if a == [] && b != [] {
        assert FirstDifference(compare, a, b, 0);
      }
    } else {
      SeqLessMeans(compare, a[1..], b[1..]);
      if compare(a[0], b[0]) == -1 {
        assert FirstDifference(compare, a, b, 0);
      } else if compare(a[0], b[0]) == 0 && (exists k: nat :: FirstDifference(compare, a[1..], b[1..], k)) {
        var k: nat :| FirstDifference(compare, a[1..], b[1..], k);
        assert a[..k + 1] == [a[0]] + a[1..][..k] && b[..k + 1] == [b[0]] + b[1..][..k];
        assert FirstDifference(compare, a, b, k + 1);
      }
      if exists k: nat :: FirstDifference(compare, a, b, k) {
        var k: nat :| FirstDifference(compare, a, b, k);
        if k > 0 {
          assert a[0] == a[..k][0] && b[0] == b[..k][0];
          assert a[1..][..k - 1] == a[..k][1..] && b[1..][..k - 1] == b[..k][1..];
          assert FirstDifference(compare, a[1..], b[1..], k - 1);
        }
      }
    }
  }

  /** Texts by the code of the first differing character, at `k`; a proper prefix comes first. */
  ghost predicate TextBelow(s: string, t: string, k: nat) {
    && k <= |s| && k <= |t| && s[..k] == t[..k]
    && if k < |s| && k < |t| then s[k] < t[k] else k == |s| && k < |t|
  }

  lemma TextBelowIff(s: string, t: string)
    ensures CompareSeq(CompareChar, s, t) == -1 <==> exists k: nat :: TextBelow(s, t, k)
  {
    CharOrder();
    SeqLessMeans(CompareChar, s, t);
    forall k: nat ensures FirstDifference(CompareChar, s, t, k) <==> TextBelow(s, t, k) {
    }
  }
}
