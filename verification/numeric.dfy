/**
 Integer views of real-valued geometry (rounding the way Kotlin's `ceil`,
 `floor` and `Float.toInt()` do) and sums of real sequences.
 */
module Numeric {

  /** Kotlin's `Int.MAX_VALUE`, the value `Float.toInt()` saturates to. */
  const IntMax: int := 0x7fff_ffff

  /** The least integer not below `x`. */
  function Ceil(x: real): (r: int)
    ensures r as real - 1.0 < x <= r as real
  {
    if x == x.Floor as real then x.Floor else x.Floor + 1
  }

  /** The greatest integer not above `x`. */
  function Floor(x: real): (r: int)
    ensures r as real <= x < r as real + 1.0
  {
    x.Floor
  }

  /** `Float.toInt()`: the fraction is dropped, rounding toward zero. */
  function Trunc(x: real): (r: int)
    ensures 0.0 <= x ==> 0 <= r && r as real <= x < r as real + 1.0
    ensures x < 0.0 ==> r <= 0 && r as real - 1.0 < x <= r as real
  {
    if x >= 0.0 then x.Floor else -((-x).Floor)
  }

  /**
   `ceil(a / b).toInt()` for Float operands with `a >= 0`, including the
   IEEE cases of a zero divisor: `a / 0` with `a > 0` is +infinity, which
   `toInt()` saturates to `Int.MAX_VALUE`; `0 / 0` is NaN, which `toInt()`
   maps to 0.
   */
  function CeilQuotient(a: real, b: real): (r: int)
    requires 0.0 <= a
    ensures b > 0.0 ==> r as real - 1.0 < a / b <= r as real
    ensures b < 0.0 ==> r <= 0
    ensures b == 0.0 ==> (r == IntMax <==> a > 0.0) && (r == 0 <==> a == 0.0)
    ensures a == 0.0 ==> r == 0
  {
    if b == 0.0 then (if a > 0.0 then IntMax else 0)
    else Ceil(a / b)
  }

  lemma CeilMonotone(x: real, y: real)
    requires x <= y
    ensures Ceil(x) <= Ceil(y)
  {
  }

  lemma TruncMonotone(x: real, y: real)
    requires x <= y
    ensures Trunc(x) <= Trunc(y)
  {
  }

  /** With a positive divisor, a wider text never needs fewer rows. */
  lemma CeilQuotientMonotone(a: real, a': real, b: real)
    requires 0.0 <= a <= a' && 0.0 < b
    ensures CeilQuotient(a, b) <= CeilQuotient(a', b)
  {
    assert a / b <= a' / b;
    CeilMonotone(a / b, a' / b);
  }

  function Min(a: int, b: int): int {
    if a <= b then a else b
  }

  /** Sum of the elements, accumulated from the front as Kotlin's `sum()` does. */
  function Sum(s: seq<real>): real
  {
    if |s| == 0 then 0.0 else Sum(s[..|s| - 1]) + s[|s| - 1]
  }

  /** Extending a prefix by one element adds that element to its sum. */
  lemma SumPrefixStep(s: seq<real>, i: nat)
    requires i < |s|
    ensures Sum(s[..i + 1]) == Sum(s[..i]) + s[i]
  {
    assert s[..i + 1][..i] == s[..i];
  }

  /** Sums are monotone in every element. */
  lemma {:induction false} SumMonotone(s: seq<real>, t: seq<real>)
    requires |s| == |t|
    requires forall i :: 0 <= i < |s| ==> s[i] <= t[i]
    ensures Sum(s) <= Sum(t)
  {
    if |s| > 0 {
      SumMonotone(s[..|s| - 1], t[..|t| - 1]);
    }
  }

  /** Sum of non-negative elements grows with the prefix length. */
  lemma {:induction false} PrefixSumMonotone(s: seq<real>, i: nat, j: nat)
    requires i <= j <= |s|
    requires forall k :: 0 <= k < |s| ==> 0.0 <= s[k]
    ensures Sum(s[..i]) <= Sum(s[..j])
    decreases j - i
  {
    if i < j {
      PrefixSumMonotone(s, i, j - 1);
      SumPrefixStep(s, j - 1);
    }
  }

  /** Every element shifted by `c`. */
  function Shift(s: seq<real>, c: real): (r: seq<real>)
    ensures |r| == |s|
    ensures forall i :: 0 <= i < |s| ==> r[i] == c + s[i]
  {
    seq(|s|, i requires 0 <= i < |s| => c + s[i])
  }

  /** Shifting each of n elements by c shifts the sum by n * c. */
  lemma {:induction false} SumShift(s: seq<real>, c: real)
    ensures Sum(Shift(s, c)) == |s| as real * c + Sum(s)
  {
    if |s| > 0 {
      var n := |s| - 1;
      assert Shift(s, c)[..n] == Shift(s[..n], c);
      SumShift(s[..n], c);
    }
  }
}
