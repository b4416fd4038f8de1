/**
 Divisibility and rounding up, by repeated subtraction so that proofs elsewhere meet only linear
 arithmetic; `DividesMeans` and `PaddingMeans` tie both to the remainder operator.
 */
module Divisibility {

  ghost predicate Divides(a: int, x: int)
    decreases x
  {
    a > 0 && (x == 0 || (x >= a && Divides(a, x - a)))
  }

  lemma OnlySmallMultiple(a: int, j: int)
    requires a > 0 && -a < a * j < a
    ensures j == 0
  {
  }

  lemma RemainderUnique(a: int, q: int, r: int)
    requires a > 0 && 0 <= r < a
    ensures (a * q + r) % a == r
  {
    var x := a * q + r;
    var q', r' := x / a, x % a;
    assert a * (q - q') == r' - r;
    OnlySmallMultiple(a, q - q');
  }

  lemma RemainderShift(a: int, x: int)
    requires a > 0
    ensures (x - a) % a == x % a && (x + a) % a == x % a
  {
    var q := x / a;
    assert x - a == a * (q - 1) + x % a && x + a == a * (q + 1) + x % a;
    RemainderUnique(a, q - 1, x % a);
    RemainderUnique(a, q + 1, x % a);
  }

  lemma RemainderSmall(a: int, x: int)
    requires 0 <= x < a
    ensures x % a == x
  {
  }

  lemma {:induction false} DividesMeans(a: int, x: int)
    requires a > 0 && x >= 0
    ensures Divides(a, x) <==> x % a == 0
    decreases x
  {
    if x < a {
      RemainderSmall(a, x);
    } else {
      RemainderShift(a, x);
      DividesMeans(a, x - a);
    }
  }

  lemma {:induction false} SumDivides(a: int, x: int, y: int)
    requires Divides(a, x) && Divides(a, y)
    ensures Divides(a, x + y)
    decreases x
  {
    if x != 0 {
      SumDivides(a, x - a, y);
    }
  }

  lemma {:induction false} ProductDivides(a: int, x: int, k: nat)
    requires Divides(a, x)
    ensures Divides(a, x * k)
  {
    if k == 0 {
    } else {
      ProductDivides(a, x, k - 1);
      SumDivides(a, x * (k - 1), x);
      assert x * (k - 1) + x == x * k;
    }
  }

  lemma {:induction false} DividesTransitive(a: int, b: int, x: int)
    requires Divides(a, b) && Divides(b, x)
    ensures Divides(a, x)
    decreases x
  {
    if x != 0 {
      DividesTransitive(a, b, x - b);
      SumDivides(a, x - b, b);
    }
  }

  lemma {:induction false} DoubleDivides(a: int, x: int)
    requires Divides(a, x)
    ensures Divides(2 * a, 2 * x)
    decreases x
  {
    if x != 0 {
      DoubleDivides(a, x - a);
    }
  }

  lemma {:induction false} OneDivides(x: nat)
    ensures Divides(1, x)
  {
    if x == 0 {
    } else {
      OneDivides(x - 1);
    }
  }

  // ----- rounding -----

  /** What is missing from `v` to the next multiple of `a`. */
  function Padding(v: int, a: int): (r: int)
    requires v >= 0 && a > 0
    ensures 0 <= r < a
    decreases v
  {
    if v >= a then Padding(v - a, a) else if v == 0 then 0 else a - v
  }

  lemma {:induction false} PaddingMeans(v: int, a: int)
    requires v >= 0 && a > 0
    ensures Padding(v, a) == (-v) % a
    decreases v
  {
    if v >= a {
      RemainderShift(a, -v);
      PaddingMeans(v - a, a);
    } else if v == 0 {
      RemainderSmall(a, 0);
    } else {
      RemainderShift(a, -v);
      RemainderSmall(a, a - v);
    }
  }

  lemma {:induction false} PaddingDivides(v: int, a: int)
    requires v >= 0 && a > 0
    ensures Divides(a, v + Padding(v, a))
    ensures Divides(a, v) ==> Padding(v, a) == 0
    decreases v
  {
    if v >= a {
      PaddingDivides(v - a, a);
    }
  }

  /** The least multiple of `a` that is at least `v`: `RoundUpDivides` adds that it is a multiple. */
  function RoundUp(v: int, a: int): (r: int)
    requires v >= 0 && a > 0
    ensures v <= r < v + a
  {
    v + Padding(v, a)
  }

  lemma RoundUpDivides(v: nat, a: nat)
    requires a > 0
    ensures Divides(a, RoundUp(v, a))
  {
    PaddingDivides(v, a);
  }

  lemma RoundUpAligned(v: nat, a: nat)
    requires Divides(a, v)
    ensures RoundUp(v, a) == v
  {
    PaddingDivides(v, a);
  }

  lemma RoundUpFirst(a: nat)
    requires a > 0
    ensures RoundUp(1, a) == a && Divides(a, a)
  {
  }

  lemma RoundUpSum(a: nat, s: nat)
    requires Divides(a, s)
    ensures RoundUp(a + s, a) == a + s
  {
    SumDivides(a, a, s);
    RoundUpAligned(a + s, a);
  }
}
