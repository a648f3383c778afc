/** Schoolbook long division as BigInt.cpp `divmod` performs it. The dividend's
    magnitude is scanned from its top slot down; each step pushes the next
    digit under the running remainder, searches the quotient digit from 9
    down with `mulDigit` and `compareAbs`, and subtracts with `absSub`. The
    signs are re-attached at the end: the quotient's slots carry
    sign(u) * sign(v), the remainder's slots carry sign(u). */
module LongDivision {
  import opened Arith
  import opened Digits
  import opened Magnitude

  /** The outcome of `divmod`: the `runtime_error` it throws for a zero
      divisor, or the quotient and remainder it stores into q and r. */
  datatype DivResult = DivisionByZero | Quotient(q: seq<int>, r: seq<int>)

  /** The inner search: from d down to 1, the first digit whose multiple of b
      is at most r; 0 when none is. */
  function Search(b: seq<int>, r: seq<int>, d: nat): nat
    ensures Search(b, r, d) <= d
  {
    if d == 0 then 0
    else if CmpAbs(MulDigitSeq(b, d), r) <= 0 then d
    else Search(b, r, d - 1)
  }

  /** The search from 9 down gives v, and so does the search from d down. The
      equation is only instantiated where Search(b, r, d) itself is mentioned. */
  ghost predicate SearchAt(b: seq<int>, r: seq<int>, d: nat, v: nat)
  {
    forall e {:trigger Search(b, r, e)} :: e == d ==> Search(b, r, e) == v
  }

  /** One probe of the search: stop at d when d * b does not exceed r, else go on below d. */
  lemma SearchNext(b: seq<int>, r: seq<int>, d: nat, v: nat, p: seq<int>, c: int)
    requires d > 0 && SearchAt(b, r, d, v) && p == MulDigitSeq(b, d) && c == CmpAbs(p, r)
    ensures c <= 0 ==> d == v
    ensures c > 0 ==> SearchAt(b, r, d - 1, v)
  {
    assert Search(b, r, d) == v;
  }

  /** Where the search starts: the largest decimal digit. */
  const TopDigit: nat := 9

  /** The quotient digit of one step: 0 when r1 is below b, else the search from 9. */
  function NextDigit(b: seq<int>, r1: seq<int>): nat
  {
    if CmpAbs(r1, b) >= 0 then Search(b, r1, TopDigit) else 0
  }

  /** The remainder after one step: r1 minus b times the quotient digit. */
  function NextRem(b: seq<int>, r1: seq<int>): seq<int>
  {
    if CmpAbs(r1, b) >= 0 then AbsSubSeq(r1, MulDigitSeq(b, NextDigit(b, r1))) else r1
  }

  /** The quotient buffer and the remainder of the main loop. */
  datatype DivState = DivState(quot: seq<int>, rem: seq<int>)

  /** The main loop after k steps: slots |a|-1 down to |a|-k of the quotient
      buffer (|a| zero slots to begin with) are written, and rem holds what
      is left of the top k digits of a. */
  function DivLoop(a: seq<int>, b: seq<int>, k: nat): (s: DivState)
    requires k <= |a|
    ensures |s.quot| == |a|
    decreases k, 1
  {
    if k == 0 then DivState(seq(|a|, _ => 0), []) else DivStep(a, b, k)
  }

  /** Step k of the main loop: slot |a| - k of a is pushed under the
      remainder, and the quotient digit found for it is stored in that slot. */
  function DivStep(a: seq<int>, b: seq<int>, k: nat): (s: DivState)
    requires 0 < k <= |a|
    ensures |s.quot| == |a|
    decreases k, 0
  {
    var s := DivLoop(a, b, k - 1);
    var idx := |a| - k;
    var r1 := PushFront(s.rem, a[idx]);
    DivState(s.quot[idx := NextDigit(b, r1)], NextRem(b, r1))
  }

  /** One more step of the main loop, from the state s after k steps. */
  lemma DivLoopNext(a: seq<int>, b: seq<int>, k: nat, s: DivState, idx: nat, x: int)
    requires k < |a| && s == DivLoop(a, b, k) && idx == |a| - k - 1 && x == a[idx]
    ensures DivLoop(a, b, k + 1)
         == DivState(s.quot[idx := NextDigit(b, PushFront(s.rem, x))], NextRem(b, PushFront(s.rem, x)))
  {
    assert DivLoop(a, b, k + 1) == DivStep(a, b, k + 1);
  }

  /** The loop over every digit of a, followed by the two `trim`s. */
  function DivMagnitudes(a: seq<int>, b: seq<int>): DivState
  {
    var s := DivLoop(a, b, |a|);
    DivState(TrimSeq(s.quot), TrimSeq(s.rem))
  }

  /** `divmod(u, v, q, r)`: the zero-divisor error, the early exit with q = 0
      and r = u when |u| < |v|, and otherwise the long division of the
      magnitudes with the signs re-attached slot by slot. */
  function DivModSeq(u: seq<int>, v: seq<int>): DivResult
  {
    if |v| == 0 then DivisionByZero
    else
      var a, b := AbsDigits(u), AbsDigits(v);
      if CmpAbs(a, b) < 0 then Quotient([], u)
      else
        var s := DivMagnitudes(a, b);
        Quotient(Scale(s.quot, TopSign(u) * TopSign(v)), Scale(s.rem, TopSign(u)))
  }

  // ---------------------------------------------------------------- the digit search

  /** A magnitude is its own slot-wise absolute value. */
  lemma MagnitudeAbs(ds: seq<int>)
    requires IsMagnitude(ds)
    ensures AbsDigits(ds) == ds && AV(ds) == Value(ds) && Bounded(ds)
  {
  }

  /** With vr = q * vb + rem and 0 <= rem < vb, the multiple vb * d fits under vr exactly when d <= q. */
  lemma FitsUnder(vb: int, vr: int, q: int, rem: int, d: int)
    requires 0 <= rem < vb && vr == q * vb + rem && d >= 0
    ensures vb * d <= vr <==> d <= q
  {
    if d <= q {
      MulMono(d, q, vb);
      assert d * vb == vb * d;
    } else {
      MulMono(q + 1, d, vb);
      assert (q + 1) * vb == q * vb + vb;
      assert d * vb == vb * d;
    }
  }

  /** The search from d finds the largest digit up to d whose multiple of b
      is at most r, that is min(d, q) when value(r) = q * value(b) + rem. */
  lemma {:induction false} SearchValue(b: seq<int>, r: seq<int>, d: nat, q: nat, rem: nat)
    requires IsMagnitude(b) && IsMagnitude(r) && d <= 9
    requires rem < Value(b) && Value(r) == q * Value(b) + rem
    ensures Search(b, r, d) == Min(d, q)
  {
    if d > 0 {
      SearchValue(b, r, d - 1, q, rem);
      MultipleFits(b, r, d, q, rem);
    }
  }

  /** `compareAbs(mulDigit(b, d), r) <= 0` holds exactly when d <= q, where value(r) = q * value(b) + rem. */
  lemma MultipleFits(b: seq<int>, r: seq<int>, d: nat, q: nat, rem: nat)
    requires IsMagnitude(b) && IsMagnitude(r) && d <= 9
    requires rem < Value(b) && Value(r) == q * Value(b) + rem
    ensures CmpAbs(MulDigitSeq(b, d), r) <= 0 <==> d <= q
  {
    MagnitudeAbs(b);
    MagnitudeAbs(r);
    MulDigitValue(b, d);
    var m := MulDigitSeq(b, d);
    MagnitudeAbs(m);
    CmpAbsValue(m, r);
    FitsUnder(Value(b), Value(r), q, rem, d);
  }

  /** One step, where value(r1) = q * value(b) + rem with q a digit, writes q and leaves rem. */
  lemma StepDigit(b: seq<int>, r1: seq<int>, q: nat, rem: nat)
    requires IsMagnitude(b) && IsMagnitude(r1) && q <= 9
    requires rem < Value(b) && Value(r1) == q * Value(b) + rem
    ensures NextDigit(b, r1) == q && NextRem(b, r1) == DigitsOf(rem)
  {
    ReachesDivisor(b, r1, q, rem);
    if q >= 1 {
      assert Search(b, r1, TopDigit) == q by {
        SearchValue(b, r1, 9, q, rem);
      }
      SubtractMultiple(b, r1, q, rem);
    } else {
      assert Value(r1) == rem;
      MagnitudeUnique(r1, DigitsOf(rem));
    }
  }

  /** `compareAbs(r1, b) >= 0` holds exactly when the quotient q is at least 1. */
  lemma ReachesDivisor(b: seq<int>, r1: seq<int>, q: nat, rem: nat)
    requires IsMagnitude(b) && IsMagnitude(r1)
    requires rem < Value(b) && Value(r1) == q * Value(b) + rem
    ensures CmpAbs(r1, b) >= 0 <==> q >= 1
  {
    MagnitudeAbs(b);
    MagnitudeAbs(r1);
    CmpAbsValue(r1, b);
    FitsUnder(Value(b), Value(r1), q, rem, 1);
  }

  /** `absSub(r1, mulDigit(b, q))` leaves the remainder rem. */
  lemma SubtractMultiple(b: seq<int>, r1: seq<int>, q: nat, rem: nat)
    requires IsMagnitude(b) && IsMagnitude(r1) && q <= 9
    requires rem < Value(b) && Value(r1) == q * Value(b) + rem
    ensures AbsSubSeq(r1, MulDigitSeq(b, q)) == DigitsOf(rem)
  {
    var vb, v1 := Value(b), Value(r1);
    MagnitudeAbs(b);
    MagnitudeAbs(r1);
    MulDigitValue(b, q);
    var m := MulDigitSeq(b, q);
    MagnitudeAbs(m);
    assert Value(m) == q * vb;
    MagnitudeLength(m, r1);
    AbsSubValue(r1, m);
  }

  // ---------------------------------------------------------------- the main loop

  /** The loop invariant after k steps: the top k digits of a equal the
      written quotient slots times b plus the remainder, the remainder is a
      magnitude below b, and every quotient slot is a digit. */
  predicate LoopInv(a: seq<int>, b: seq<int>, k: nat, s: DivState)
    requires k <= |a| == |s.quot|
  {
    && NonNeg(s.quot) && IsMagnitude(s.rem) && Value(s.rem) < Value(b)
    && Value(a[|a| - k..]) == Value(s.quot[|a| - k..]) * Value(b) + Value(s.rem)
  }

  /** The main loop keeps LoopInv at every step. */
  lemma {:induction false} DivLoopInvariant(a: seq<int>, b: seq<int>, k: nat)
    requires k <= |a| && NonNeg(a) && IsMagnitude(b) && |b| > 0
    ensures LoopInv(a, b, k, DivLoop(a, b, k))
  {
    if k == 0 {
      MagnitudeLowerBound(b);
      assert a[|a|..] == [];
      assert DivLoop(a, b, 0).quot[|a|..] == [];
    } else {
      DivLoopInvariant(a, b, k - 1);
      DivLoopStep(a, b, k, DivLoop(a, b, k - 1));
    }
  }

  /** One step of the main loop preserves LoopInv. */
  lemma DivLoopStep(a: seq<int>, b: seq<int>, k: nat, s: DivState)
    requires 1 <= k <= |a| == |s.quot| && NonNeg(a) && IsMagnitude(b) && |b| > 0
    requires LoopInv(a, b, k - 1, s)
    ensures var r1 := PushFront(s.rem, a[|a| - k]);
            LoopInv(a, b, k, DivState(s.quot[|a| - k := NextDigit(b, r1)], NextRem(b, r1)))
  {
    var idx := |a| - k;
    var x := a[idx];
    var vb, vr := Value(b), Value(s.rem);
    var q, rem := NextStep(b, s.rem, x);
    var q' := s.quot[idx := q];
    var hiA, hiQ := Value(a[idx + 1..]), Value(s.quot[idx + 1..]);
    var va, vq := Value(a[idx..]), Value(q'[idx..]);
    assert va == x + 10 * hiA by {
      SuffixValue(a, idx);
    }
    assert vq == q + 10 * hiQ by {
      SuffixValue(q', idx);
      assert q'[idx + 1..] == s.quot[idx + 1..];
    }
    assert hiA == hiQ * vb + vr by {
      assert idx + 1 == |a| - (k - 1);
    }
    DivStepArith(va, vq, hiA, hiQ, vr, x, q, rem, vb);
    assert NonNeg(q');
  }

  /** Bringing digit x down under a remainder r below b: the step writes the
      quotient digit q and leaves rem, where 10 * r + x = q * b + rem. */
  lemma NextStep(b: seq<int>, r: seq<int>, x: int) returns (q: nat, rem: nat)
    requires IsMagnitude(b) && |b| > 0 && IsMagnitude(r) && Value(r) < Value(b) && 0 <= x <= 9
    ensures q <= 9 && rem < Value(b) && 10 * Value(r) + x == q * Value(b) + rem
    ensures NextDigit(b, PushFront(r, x)) == q && NextRem(b, PushFront(r, x)) == DigitsOf(rem)
    ensures IsMagnitude(DigitsOf(rem))
  {
    var r1 := PushFront(r, x);
    PushFrontValue(r, x);
    NonNegBounds(r);
    q, rem := BringDown(Value(r), x, Value(b));
    StepDigit(b, r1, q, rem);
  }

  /** The value of a suffix is its first slot plus ten times the rest. */
  lemma SuffixValue(ds: seq<int>, i: nat)
    requires i < |ds|
    ensures Value(ds[i..]) == ds[i] + 10 * Value(ds[i + 1..])
  {
    assert ds[i..][1..] == ds[i + 1..];
  }

  /** 10 * vr + x, for 0 <= vr < vb and a digit x, splits as q * vb + rem with q a digit. */
  lemma BringDown(vr: int, x: int, vb: int) returns (q: nat, rem: nat)
    requires 0 <= vr < vb && 0 <= x <= 9
    ensures q <= 9 && rem < vb && 10 * vr + x == q * vb + rem
  {
    var v1 := 10 * vr + x;
    q, rem := v1 / vb, v1 % vb;
    assert v1 == q * vb + rem;
    FitsUnder(vb, v1, q, rem, 10);
    assert vb * 10 > v1;
  }

  /** Bringing down digit x: if hi = hq * b + r and 10r + x = d * b + rem, then
      the extended prefix x + 10hi is (d + 10hq) * b + rem. */
  lemma DivStepArith(va: int, vq: int, hi: int, hq: int, r: int, x: int, d: int, rem: int, b: int)
    requires va == x + 10 * hi && vq == d + 10 * hq
    requires hi == hq * b + r && 10 * r + x == d * b + rem
    ensures va == vq * b + rem
  {
  }

  /** The loop and the trims compute the quotient q and remainder rem of the
      magnitudes, where value(a) = q * value(b) + rem and 0 <= rem < value(b). */
  lemma DivMagnitudesValue(a: seq<int>, b: seq<int>, q: nat, rem: nat)
    requires NonNeg(a) && IsMagnitude(b) && |b| > 0
    requires rem < Value(b) && Value(a) == q * Value(b) + rem
    ensures DivMagnitudes(a, b) == DivState(DigitsOf(q), DigitsOf(rem))
  {
    DivLoopInvariant(a, b, |a|);
    var s := DivLoop(a, b, |a|);
    assert a[0..] == a && s.quot[0..] == s.quot;
    assert LoopInv(a, b, |a|, s);
    var vq, vr, vb := Value(s.quot), Value(s.rem), Value(b);
    NonNegBounds(s.quot);
    NonNegBounds(s.rem);
    QuotientUnique(Value(a), vb, vq, vr, q, rem);
    MagnitudeOfTrim(s.quot, q);
    MagnitudeOfTrim(s.rem, rem);
  }

  /** Two splittings of m by d with remainders in [0, d) agree. */
  lemma QuotientUnique(m: int, d: int, q1: int, r1: int, q2: int, r2: int)
    requires d > 0 && 0 <= r1 < d && 0 <= r2 < d && m == q1 * d + r1 && m == q2 * d + r2
    ensures q1 == q2 && r1 == r2
  {
    DivModUnique(m, d, q1, r1);
    DivModUnique(m, d, q2, r2);
  }

  // ---------------------------------------------------------------- signs

  /** Magnitude digits scaled by a sign are the canonical form of the signed magnitude. */
  lemma ScaleDigitsOf(m: nat, s: int, v: int)
    requires (s == 1 && v == m) || (s == -1 && v + m == 0)
    ensures Scale(DigitsOf(m), s) == CanonicalOf(v)
  {
    CanonicalOfShape(v);
    if s == -1 {
      if m == 0 {
        assert DigitsOf(m) == [];
        assert Negate([]) == [];
      } else {
        assert -v == m;
      }
    }
  }

  /** The sign `divmod` reads off the top slot is the sign of a canonical value. */
  lemma TopSignOf(ds: seq<int>)
    requires Canonical(ds)
    ensures TopSign(ds) == Sign(Value(ds))
  {
    CanonicalSign(ds);
  }

  /** The slot-wise absolute values of a canonical sequence are the magnitude digits of |value|. */
  lemma AbsOfCanonical(u: seq<int>)
    requires Canonical(u)
    ensures IsMagnitude(AbsDigits(u)) && Value(AbsDigits(u)) == Abs(Value(u))
  {
    CanonicalAV(u);
  }

  /** Euclidean division of a natural number by a positive one. */
  lemma Split(m: nat, d: nat) returns (q: nat, r: nat)
    requires d > 0
    ensures m == q * d + r && r < d
  {
    q, r := m / d, m % d;
  }

  /** C++'s truncating quotient and remainder in terms of the division of the magnitudes. */
  lemma TruncParts(x: int, y: int, q: int, r: int)
    requires y != 0 && q >= 0 && 0 <= r < Abs(y) && Abs(x) == q * Abs(y) + r
    ensures TDiv(x, y) == if (x < 0) == (y < 0) then q else -q
    ensures TRem(x, y) == if x < 0 then -r else r
  {
    DivModUnique(Abs(x), Abs(y), q, r);
  }

  /** The product of the sources' signs is 1 exactly when the signs agree. */
  lemma SignProduct(x: int, y: int)
    ensures Sign(x) * Sign(y) == if (x < 0) == (y < 0) then 1 else -1
  {
  }

  /** `divmod`'s early exit is right: for a dividend of smaller magnitude the
      quotient is zero and the remainder is the dividend itself, as C++'s
      truncating `/` and `%` give. */
  lemma EarlyExitCorrect(u: seq<int>, v: seq<int>)
    requires Canonical(u) && Canonical(v) && |v| > 0 && Abs(Value(u)) < Abs(Value(v))
    ensures Value(v) != 0
    ensures DivModSeq(u, v) == Quotient([], u)
    ensures TDiv(Value(u), Value(v)) == 0 && TRem(Value(u), Value(v)) == Value(u)
  {
    var a, b := AbsDigits(u), AbsDigits(v);
    CanonicalAV(u);
    CanonicalAV(v);
    MagnitudeAbs(a);
    MagnitudeAbs(b);
    CmpAbsValue(a, b);
    SmallTrunc(Value(u), Value(v));
  }

  /** Truncating division of a smaller magnitude: quotient 0, remainder the dividend. */
  lemma SmallTrunc(x: int, y: int)
    requires Abs(x) < Abs(y)
    ensures y != 0 && TDiv(x, y) == 0 && TRem(x, y) == x
  {
  }

  /** For canonical operands and a non-zero divisor `divmod` yields the
      canonical forms of C++'s truncating quotient and remainder. */
  lemma DivModCorrect(u: seq<int>, v: seq<int>)
    requires Canonical(u) && Canonical(v) && |v| > 0
    ensures Value(v) != 0
    ensures DivModSeq(u, v) == Quotient(CanonicalOf(TDiv(Value(u), Value(v))), CanonicalOf(TRem(Value(u), Value(v))))
  {
    CanonicalSign(v);
    var vu, vv := Value(u), Value(v);
    var a, b := AbsDigits(u), AbsDigits(v);
    AbsOfCanonical(u);
    AbsOfCanonical(v);
    var au, av := Value(a), Value(b);
    assert CmpAbs(a, b) == Cmp(au, av) by {
      MagnitudeAbs(a);
      MagnitudeAbs(b);
      CmpAbsValue(a, b);
    }
    var qm, rm := Split(au, av);
    if au < av {
      assert TDiv(vu, vv) == 0 && TRem(vu, vv) == vu by {
        TruncParts(vu, vv, 0, au);
      }
      CanonicalIsUnique(u);
    } else {
      DivMagnitudesValue(a, b, qm, rm);
      TopSignOf(u);
      TopSignOf(v);
      SignedResults(vu, vv, qm, rm);
    }
  }

  /** Re-attaching the signs to the magnitude quotient and remainder gives the
      canonical forms of the truncating quotient and remainder. */
  lemma SignedResults(x: int, y: int, q: nat, r: nat)
    requires y != 0 && r < Abs(y) && Abs(x) == q * Abs(y) + r
    ensures Scale(DigitsOf(q), Sign(x) * Sign(y)) == CanonicalOf(TDiv(x, y))
    ensures Scale(DigitsOf(r), Sign(x)) == CanonicalOf(TRem(x, y))
  {
    TruncParts(x, y, q, r);
    SignProduct(x, y);
    ScaleDigitsOf(q, Sign(x) * Sign(y), TDiv(x, y));
    ScaleDigitsOf(r, Sign(x), TRem(x, y));
  }

  /** The C++ division law for the results: u = q * v + r, |r| < |v|, r has u's sign. */
  lemma DivModLaw(u: seq<int>, v: seq<int>)
    requires Canonical(u) && Canonical(v) && |v| > 0
    ensures DivModSeq(u, v).Quotient?
    ensures var res := DivModSeq(u, v);
            && Canonical(res.q) && Canonical(res.r)
            && Value(u) == Value(res.q) * Value(v) + Value(res.r)
            && Abs(Value(res.r)) < Abs(Value(v))
            && (Value(res.r) != 0 ==> (Value(res.r) < 0 <==> Value(u) < 0))
  {
    DivModCorrect(u, v);
    TruncDivLaw(Value(u), Value(v));
  }
}
