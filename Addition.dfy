/** What the signed `operator+` of BigInt.cpp gives for operands of opposite
    signs, and the sign-aware sum it evidently intends: equal signs go
    through the carry pass, opposite signs subtract the smaller magnitude
    from the larger one with `absSub` and take the larger one's sign. */
module Addition {
  import opened Arith
  import opened Digits
  import opened Carry
  import opened Magnitude
  import opened Decimal

  /** `operator+` as BigInt.cpp writes it: the carry pass, then `trim`. */
  function PlainSum(a: seq<int>, b: seq<int>): (r: seq<int>)
    ensures Trimmed(r)
  {
    TrimSeq(CarrySeq(a, b))
  }

  /** The carry pass keeps the value and the slot range whatever the signs. */
  lemma PlainSumValue(a: seq<int>, b: seq<int>)
    requires Bounded(a) && Bounded(b)
    ensures Value(PlainSum(a, b)) == Value(a) + Value(b) && Bounded(PlainSum(a, b))
  {
    CarryValue(a, b);
    TrimValue(CarrySeq(a, b));
  }

  /** With operands of one sign the carry pass already gives the canonical sum. */
  lemma PlainSumSameSign(a: seq<int>, b: seq<int>)
    requires Canonical(a) && Canonical(b) && TopSign(a) == TopSign(b)
    ensures PlainSum(a, b) == CanonicalOf(Value(a) + Value(b))
  {
    CanonicalSigned(a);
    CanonicalSigned(b);
    CarryCanonical(a, b);
  }

  /** 10 + (-1): the carry pass leaves the slots [-1, 1], which hold 9 but
      mix signs, so `print` writes "1-1". */
  lemma MixedSignSum()
    ensures PlainSum([0, 1], [-1]) == [-1, 1]
    ensures Value([-1, 1]) == 9 && !Canonical([-1, 1])
    ensures Render([-1, 1]) == "1-1"
  {
    assert Pass([0, 1], [-1], 1) == PassState([-1], 0);
    assert Pass([0, 1], [-1], 2) == PassState([-1, 1], 0);
    assert Pass([0, 1], [-1], 3) == PassState([-1, 1, 0], 0);
    assert TrimSeq([-1, 1, 0]) == TrimSeq([-1, 1]) == [-1, 1];
    assert Tail([-1, 1], 1, 1) == "-1";
  }

  /** `operator+` as written is commutative, for any slots. */
  lemma {:induction false} AddComm(a: seq<int>, b: seq<int>)
    ensures PlainSum(a, b) == PlainSum(b, a)
  {
    PassSymmetric(a, b, Max(|a|, |b|) + 1);
    assert Max(|a|, |b|) == Max(|b|, |a|);
  }

  /** Zero, the empty sequence, is a neutral element of `operator+` on both sides. */
  lemma AddZero(a: seq<int>)
    requires Canonical(a)
    ensures PlainSum(a, []) == a && PlainSum([], a) == a
  {
    CarryCanonical(a, []);
    CanonicalIsUnique(a);
    AddComm(a, []);
  }

  /** The sum BigInt.cpp's `+` evidently intends: the carry pass when the
      signs agree, otherwise the larger magnitude minus the smaller with the
      sign of the larger. */
  function SignedAdd(a: seq<int>, b: seq<int>): seq<int>
  {
    if TopSign(a) == TopSign(b) then PlainSum(a, b)
    else if CmpAbs(a, b) >= 0 then Scale(AbsSubSeq(a, b), TopSign(a))
    else Scale(AbsSubSeq(b, a), TopSign(b))
  }

  /** On canonical operands the sign-aware sum is the canonical sum. */
  lemma SignedAddCorrect(a: seq<int>, b: seq<int>)
    requires Canonical(a) && Canonical(b)
    ensures SignedAdd(a, b) == CanonicalOf(Value(a) + Value(b))
  {
    if TopSign(a) == TopSign(b) {
      PlainSumSameSign(a, b);
    } else if CmpAbs(a, b) >= 0 {
      LargerFirst(a, b);
    } else {
      LargerFirst(b, a);
      assert Value(b) + Value(a) == Value(a) + Value(b);
    }
  }

  /** The corrected sum is commutative on canonical operands. */
  lemma SignedAddComm(a: seq<int>, b: seq<int>)
    requires Canonical(a) && Canonical(b)
    ensures SignedAdd(a, b) == SignedAdd(b, a)
  {
    SignedAddCorrect(a, b);
    SignedAddCorrect(b, a);
    assert Value(a) + Value(b) == Value(b) + Value(a);
  }

  /** Opposite signs with a the larger magnitude: `absSub(a, b)` signed like a is the canonical sum. */
  lemma LargerFirst(a: seq<int>, b: seq<int>)
    requires Canonical(a) && Canonical(b) && TopSign(a) != TopSign(b)
    requires CmpAbs(a, b) >= 0 || CmpAbs(b, a) < 0
    ensures Scale(AbsSubSeq(a, b), TopSign(a)) == CanonicalOf(Value(a) + Value(b))
  {
    MagnitudeOrder(a, b);
    OppositeSum(a, b);
    Difference(a, b, TopSign(a), AbsSubSeq(a, b), Value(a) + Value(b));
  }

  /** For |a| >= |b| and v the difference of the magnitudes signed by s,
      the `absSub` result d with the sign s is the canonical form of v. */
  lemma Difference(a: seq<int>, b: seq<int>, s: int, d: seq<int>, v: int)
    requires Bounded(a) && Bounded(b) && AV(b) <= AV(a) && |b| <= |a| && (s == 1 || s == -1)
    requires d == AbsSubSeq(a, b)
    requires v == if s > 0 then AV(a) - AV(b) else -(AV(a) - AV(b))
    ensures Scale(d, s) == CanonicalOf(v)
  {
    var m: nat := AV(a) - AV(b);
    AbsSubValue(a, b);
    Assemble(d, m, s, v);
  }

  /** The digits d of m with the sign s are the canonical form of the signed magnitude v. */
  lemma Assemble(d: seq<int>, m: nat, s: int, v: int)
    requires d == DigitsOf(m) && (s == 1 || s == -1) && v == if s > 0 then m else -(m as int)
    ensures Scale(d, s) == CanonicalOf(v)
  {
    ScaledMagnitude(m, s);
  }

  /** With opposite signs the sum is the difference of the magnitudes, signed like a. */
  lemma OppositeSum(a: seq<int>, b: seq<int>)
    requires Canonical(a) && Canonical(b) && TopSign(a) != TopSign(b)
    ensures Value(a) + Value(b) == if TopSign(a) > 0 then AV(a) - AV(b) else -(AV(a) - AV(b))
  {
    CanonicalAV(a);
    CanonicalAV(b);
    SignOfValue(a);
    SignOfValue(b);
  }

  /** The digits of m given the sign s are the canonical form of s * m. */
  lemma ScaledMagnitude(m: nat, s: int)
    requires s == 1 || s == -1
    ensures Scale(DigitsOf(m), s) == CanonicalOf(if s > 0 then m else -(m as int))
  {
    CanonicalOfShape(m);
    CanonicalOfShape(-(m as int));
  }

  /** Deciding `compareAbs` in favour of a bounds b's magnitude and length by a's. */
  lemma MagnitudeOrder(a: seq<int>, b: seq<int>)
    requires Canonical(a) && Canonical(b)
    requires CmpAbs(a, b) >= 0 || CmpAbs(b, a) < 0
    ensures Bounded(a) && Bounded(b) && AV(b) <= AV(a) && |b| <= |a|
  {
    CanonicalAV(a);
    CanonicalAV(b);
    CmpAbsValue(a, b);
    CmpAbsValue(b, a);
    MagnitudeLength(AbsDigits(b), AbsDigits(a));
  }

  /** The value of a canonical sequence has the sign of its top slot. */
  lemma SignOfValue(a: seq<int>)
    requires Canonical(a)
    ensures TopSign(a) > 0 ==> Value(a) >= 0
    ensures TopSign(a) < 0 ==> Value(a) < 0
  {
    CanonicalSign(a);
  }

  /** A canonical sequence carries the sign of its top slot in every slot. */
  lemma CanonicalSigned(a: seq<int>)
    requires Canonical(a)
    ensures SignedBy(a, TopSign(a))
  {
    if |a| > 0 {
      if a[|a| - 1] > 0 {
        assert !NonPos(a);
      } else {
        assert !NonNeg(a);
      }
    }
  }
}
