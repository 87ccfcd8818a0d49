/** Least common multiples as the traffic allocator computes them: a brute-force
    upward search for two numbers, folded over the list of denominators. */
module TrafficLcm {
  import opened Arithmetic

  /** `m` is a positive common multiple of the positive numbers `a` and `b`. */
  predicate IsCommonMultiple(m: int, a: int, b: int) {
    a >= 1 && b >= 1 && m >= 1 && m % a == 0 && m % b == 0
  }

  /** `m` is the least positive common multiple of `a` and `b`. */
  ghost predicate IsLcm(a: int, b: int, m: int) {
    IsCommonMultiple(m, a, b) && forall k :: 1 <= k < m ==> !IsCommonMultiple(k, a, b)
  }

  /** `m` is a positive multiple of every element of `s`. */
  ghost predicate IsMultipleOfAll(m: int, s: seq<nat>) {
    m >= 1 && forall i :: 0 <= i < |s| ==> s[i] >= 1 && m % s[i] == 0
  }

  /** Every element is a valid denominator. */
  predicate AllPositive(s: seq<nat>) {
    forall i :: 0 <= i < |s| ==> s[i] >= 1
  }

  // ---------------------------------------------------------------------------
  // Two numbers

  lemma ProductIsCommonMultiple(a: nat, b: nat)
    requires a >= 1 && b >= 1
    ensures IsCommonMultiple(a * b, a, b)
  {
    MulIsMultiple(a, b);
    MulIsMultiple(b, a);
    assert a * b == b * a;
  }

  /** The upward search of the source, counting from `greater` until a number
      divisible by both is found. */
  function LcmSearch(a: nat, b: nat, greater: nat): (r: nat)
    requires a >= 1 && b >= 1 && 1 <= greater <= a * b
    ensures greater <= r && IsCommonMultiple(r, a, b)
    ensures forall k :: greater <= k < r ==> !IsCommonMultiple(k, a, b)
    decreases a * b - greater
  {
    if greater % a == 0 && greater % b == 0 then greater
    else
      ProductIsCommonMultiple(a, b);
      LcmSearch(a, b, greater + 1)
  }

  /** Least common multiple of two positive numbers, found by searching upward
      from the larger of the two. */
  function Lcm(a: nat, b: nat): (r: nat)
    requires a >= 1 && b >= 1
    ensures IsLcm(a, b, r)
  {
    var greater := if a > b then a else b;
    assert greater <= a * b;
    var r := LcmSearch(a, b, greater);
    assert forall k :: 1 <= k < greater ==> !IsCommonMultiple(k, a, b) by {
      forall k | 1 <= k < greater ensures !IsCommonMultiple(k, a, b) {
        if k < a { SmallIsNotMultiple(k, a); } else { SmallIsNotMultiple(k, b); }
      }
    }
    r
  }

  /** The least common multiple is unique. */
  lemma LcmUnique(a: int, b: int, m: int, n: int)
    requires IsLcm(a, b, m) && IsLcm(a, b, n)
    ensures m == n
  {
  }

  /** A least common multiple divides every common multiple. */
  lemma LeastDividesCommonMultiple(a: nat, b: nat, l: nat, m: nat)
    requires IsLcm(a, b, l) && IsCommonMultiple(m, a, b)
    ensures m % l == 0
  {
    var q := m / l;
    var p: nat := l * q;
    var r := m % l;
    assert m - p == r by { assert m == l * q + m % l; }
    assert p % a == 0 && p % b == 0 by {
      MulIsMultiple(l, q);
      DividesTransitive(a, l, p);
      DividesTransitive(b, l, p);
    }
    assert r % a == 0 && r % b == 0 by {
      DifferenceIsMultiple(a, m, p);
      DifferenceIsMultiple(b, m, p);
    }
    if r >= 1 {
      assert IsCommonMultiple(r, a, b);
      assert false;
    }
  }

  /** Every common multiple of `a` and `b` is a multiple of `Lcm(a, b)`. */
  lemma LcmDividesCommonMultiple(a: nat, b: nat, m: nat)
    requires IsCommonMultiple(m, a, b)
    ensures m % Lcm(a, b) == 0
  {
    LeastDividesCommonMultiple(a, b, Lcm(a, b), m);
  }

  // ---------------------------------------------------------------------------
  // A list of numbers

  /** Left fold of `Lcm` over `s`, starting from 1, as the source's loop does. */
  function LcmSeq(s: seq<nat>): (r: nat)
    requires AllPositive(s)
    ensures r >= 1
  {
    if |s| == 0 then 1 else Lcm(LcmSeq(s[..|s| - 1]), s[|s| - 1])
  }

  /** The fold yields a common multiple of all elements that divides every
      other common multiple. */
  lemma {:induction false} LcmSeqDivides(s: seq<nat>)
    requires AllPositive(s)
    ensures IsMultipleOfAll(LcmSeq(s), s)
    ensures forall m :: IsMultipleOfAll(m, s) ==> m % LcmSeq(s) == 0
  {
    if |s| > 0 {
      var init, last := s[..|s| - 1], s[|s| - 1];
      LcmSeqDivides(init);
      var p := LcmSeq(init);
      var l := Lcm(p, last);
      assert l == LcmSeq(s);
      forall i | 0 <= i < |s| ensures l % s[i] == 0 {
        if i < |s| - 1 {
          assert s[i] == init[i];
          DividesTransitive(s[i], p, l);
        }
      }
      forall m | IsMultipleOfAll(m, s) ensures m % l == 0 {
        assert IsMultipleOfAll(m, init) by {
          forall i | 0 <= i < |init| ensures m % init[i] == 0 {
            assert init[i] == s[i];
          }
        }
        assert m % last == 0 by { assert s[|s| - 1] == last; }
        LcmDividesCommonMultiple(p, last, m);
      }
    }
  }

  /** `LcmSeq(s)` is the least positive common multiple of the elements of `s`;
      for the empty list it is 1. */
  lemma LcmSeqIsLeast(s: seq<nat>)
    requires AllPositive(s)
    ensures IsMultipleOfAll(LcmSeq(s), s)
    ensures forall k :: 1 <= k < LcmSeq(s) ==> !IsMultipleOfAll(k, s)
  {
    LcmSeqDivides(s);
    forall k | 1 <= k < LcmSeq(s) ensures !IsMultipleOfAll(k, s) {
      if IsMultipleOfAll(k, s) {
        SmallIsNotMultiple(k, LcmSeq(s));
      }
    }
  }
}
