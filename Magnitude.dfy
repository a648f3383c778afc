/** The magnitude helpers of BigInt.cpp that long division is built from:
    `compareAbs`, `absSub`, `mulDigit` and `pushFrontDigit`. Each is given
    here as a function on digit sequences that follows the C++ loop slot by
    slot; the lemmas say what it computes in terms of values. */
module Magnitude {
  import opened Arith
  import opened Digits

  /** -1, 0 or 1 as x is below, equal to or above y. */
  function Cmp(x: int, y: int): int
  {
    if x < y then -1 else if x == y then 0 else 1
  }

  // ---------------------------------------------------------------- compareAbs

  /** The scan of `compareAbs` over slots i-1 down to 0: the first slot whose
      absolute values differ decides. */
  function CmpFrom(a: seq<int>, b: seq<int>, i: nat): int
    requires i <= |a| && i <= |b|
  {
    if i == 0 then 0
    else if Abs(a[i - 1]) != Abs(b[i - 1]) then Cmp(Abs(a[i - 1]), Abs(b[i - 1]))
    else CmpFrom(a, b, i - 1)
  }

  /** `compareAbs`: the longer sequence is the larger; equal lengths are scanned from the top. */
  function CmpAbs(a: seq<int>, b: seq<int>): int
  {
    if |a| != |b| then (if |a| < |b| then -1 else 1) else CmpFrom(a, b, |a|)
  }

  /** Below a common prefix the scan compares the low parts of the magnitudes. */
  lemma {:induction false} CmpFromLow(a: seq<int>, b: seq<int>, i: nat)
    requires i <= |a| && i <= |b| && Bounded(a) && Bounded(b)
    ensures CmpFrom(a, b, i) == Cmp(Low(AbsDigits(a), i), Low(AbsDigits(b), i))
  {
    if i > 0 {
      CmpFromLow(a, b, i - 1);
      var A, B := AbsDigits(a), AbsDigits(b);
      var P := Pow10(i - 1);
      ValuePrefix(A, i - 1);
      ValuePrefix(B, i - 1);
      NonNegBounds(A[..i - 1]);
      NonNegBounds(B[..i - 1]);
      TopDecides(Low(A, i - 1), Low(B, i - 1), A[i - 1], B[i - 1], P);
    }
  }

  /** Two numbers below P with top terms d * P: different top digits decide the comparison. */
  lemma TopDecides(la: int, lb: int, da: int, db: int, p: int)
    requires 0 <= la < p && 0 <= lb < p && 0 <= da && 0 <= db
    ensures da != db ==> Cmp(la + da * p, lb + db * p) == Cmp(da, db)
    ensures da == db ==> Cmp(la + da * p, lb + db * p) == Cmp(la, lb)
  {
    if da < db {
      MulMono(da + 1, db, p);
      assert (da + 1) * p == da * p + p;
      assert la + da * p < lb + db * p;
    } else if db < da {
      MulMono(db + 1, da, p);
      assert (db + 1) * p == db * p + p;
      assert lb + db * p < la + da * p;
    }
  }

  /** On trimmed sequences with slots in (-10, 10), `compareAbs` is the sign of |a| - |b|. */
  lemma CmpAbsValue(a: seq<int>, b: seq<int>)
    requires Trimmed(a) && Trimmed(b) && Bounded(a) && Bounded(b)
    ensures CmpAbs(a, b) == Cmp(AV(a), AV(b))
  {
    var A, B := AbsDigits(a), AbsDigits(b);
    AbsMagnitude(a);
    AbsMagnitude(b);
    if |a| < |b| {
      LengthDecides(A, B);
    } else if |b| < |a| {
      LengthDecides(B, A);
    } else {
      CmpFromLow(a, b, |a|);
      LowBeyond(A, |a|);
      LowBeyond(B, |b|);
    }
  }

  /** A shorter magnitude is smaller. */
  lemma LengthDecides(x: seq<int>, y: seq<int>)
    requires IsMagnitude(x) && IsMagnitude(y) && |x| < |y|
    ensures Value(x) < Value(y)
  {
    NonNegBounds(x);
    MagnitudeLowerBound(y);
    Pow10Monotone(|x|, |y| - 1);
  }

  // ---------------------------------------------------------------- absSub

  /** The first i slots of `absSub`: |a[k]| minus the borrow minus |b[k]|
      (0 past the end of b), plus 10 with a borrow of 1 when negative. */
  function SubPass(a: seq<int>, b: seq<int>, i: nat): (p: PassState)
    requires i <= |a|
    ensures |p.digits| == i
  {
    if i == 0 then PassState([], 0)
    else
      var p := SubPass(a, b, i - 1);
      var d := (Abs(a[i - 1]) - p.carry) - Abs(At(b, i - 1));
      if d < 0 then PassState(p.digits + [d + 10], 1) else PassState(p.digits + [d], 0)
  }

  /** `absSub`: the borrow pass over the slots of a, then `trim`. */
  function AbsSubSeq(a: seq<int>, b: seq<int>): seq<int>
  {
    TrimSeq(SubPass(a, b, |a|).digits)
  }

  /** The borrow pass keeps |a| - |b| up to the outstanding borrow, writing digits 0..9. */
  lemma {:induction false} SubPassValue(a: seq<int>, b: seq<int>, i: nat)
    requires i <= |a| && Bounded(a) && Bounded(b)
    ensures var p := SubPass(a, b, i);
            && Value(p.digits) == Low(AbsDigits(a), i) - Low(AbsDigits(b), i) + p.carry * Pow10(i)
            && NonNeg(p.digits)
            && (p.carry == 0 || p.carry == 1)
  {
    if i > 0 {
      SubPassValue(a, b, i - 1);
      var p := SubPass(a, b, i - 1);
      var av, bv := Abs(a[i - 1]), Abs(At(b, i - 1));
      var d := (av - p.carry) - bv;
      var q := SubPass(a, b, i);
      var dig := if d < 0 then d + 10 else d;
      assert q.digits == p.digits + [dig];
      ValueAppend(p.digits, dig);
      assert At(AbsDigits(b), i - 1) == bv;
      BorrowStep(Value(p.digits), p.carry, av, bv, dig, q.carry, Pow10(i - 1),
                 Low(AbsDigits(a), i - 1), Low(AbsDigits(b), i - 1));
    }
  }

  /** One borrow step in arithmetic terms. */
  lemma BorrowStep(vd: int, borrow: int, av: int, bv: int, dig: int, borrow': int, p: int, la: int, lb: int)
    requires vd == la - lb + borrow * p
    requires dig - 10 * borrow' == av - borrow - bv
    ensures vd + dig * p == (la + av * p) - (lb + bv * p) + borrow' * (10 * p)
  {
    assert (dig - 10 * borrow') * p == (av - borrow - bv) * p;
  }

  /** `absSub` with |a| >= |b| and b no longer than a gives the magnitude of |a| - |b|. */
  lemma AbsSubValue(a: seq<int>, b: seq<int>)
    requires Bounded(a) && Bounded(b) && |b| <= |a| && AV(b) <= AV(a)
    ensures AbsSubSeq(a, b) == DigitsOf(AV(a) - AV(b))
  {
    var n := |a|;
    var p := SubPass(a, b, n);
    SubPassValue(a, b, n);
    LowBeyond(AbsDigits(a), n);
    LowBeyond(AbsDigits(b), n);
    NonNegBounds(p.digits);
    var m: nat := AV(a) - AV(b);
    NoFinalBorrow(Value(p.digits), m, p.carry, Pow10(n));
    MagnitudeOfTrim(p.digits, m);
  }

  /** A borrow out of the top slot would leave a value below zero. */
  lemma NoFinalBorrow(v: int, diff: int, borrow: int, p: int)
    requires 0 <= v < p && diff >= 0 && v == diff + borrow * p && (borrow == 0 || borrow == 1)
    ensures v == diff
  {
  }

  /** Trimming digits 0..9 of value m gives the magnitude of m. */
  lemma MagnitudeOfTrim(ds: seq<int>, m: nat)
    requires NonNeg(ds) && Value(ds) == m
    ensures TrimSeq(ds) == DigitsOf(m)
  {
    var t := TrimSeq(ds);
    TrimValue(ds);
    assert NonNeg(t);
    MagnitudeUnique(t, DigitsOf(m));
  }

  // ---------------------------------------------------------------- mulDigit

  /** The first i slots of `mulDigit`: |a[k]| * d plus the carry, stored as tmp % 10 with tmp / 10 carried. */
  function MulPass(a: seq<int>, d: int, i: nat): (p: PassState)
    requires i <= |a|
    ensures |p.digits| == i
  {
    if i == 0 then PassState([], 0)
    else
      var p := MulPass(a, d, i - 1);
      var tmp := Abs(a[i - 1]) * d + p.carry;
      PassState(p.digits + [Mod(tmp, 10)], Quot(tmp, 10))
  }

  /** `mulDigit`: zero for d == 0 or a zero operand, otherwise the pass with the
      final carry in slot |a|, then `trim`. */
  function MulDigitSeq(a: seq<int>, d: int): seq<int>
  {
    if d == 0 || |a| == 0 then []
    else
      var p := MulPass(a, d, |a|);
      TrimSeq(p.digits + [p.carry])
  }

  /** The pass keeps |a| * d up to the outstanding carry, writing digits 0..9 and carrying at most 8. */
  lemma {:induction false} MulPassValue(a: seq<int>, d: int, i: nat)
    requires i <= |a| && Bounded(a) && 0 <= d <= 9
    ensures var p := MulPass(a, d, i);
            && Value(p.digits) + p.carry * Pow10(i) == Low(AbsDigits(a), i) * d
            && NonNeg(p.digits)
            && 0 <= p.carry <= 8
  {
    if i > 0 {
      MulPassValue(a, d, i - 1);
      var p := MulPass(a, d, i - 1);
      var av := Abs(a[i - 1]);
      var tmp := av * d + p.carry;
      ProductBound(av, d);
      var dig, c := Mod(tmp, 10), Quot(tmp, 10);
      assert MulPass(a, d, i).digits == p.digits + [dig];
      ValueAppend(p.digits, dig);
      MulStep(Value(p.digits), p.carry, av, d, dig, c, Pow10(i - 1), Low(AbsDigits(a), i - 1));
    }
  }

  lemma ProductBound(x: int, d: int)
    requires 0 <= x <= 9 && 0 <= d <= 9
    ensures 0 <= x * d <= 81
  {
    MulMono(x, 9, d);
  }

  /** One multiply-and-carry step in arithmetic terms. */
  lemma MulStep(vd: int, carry: int, av: int, d: int, dig: int, c: int, p: int, low: int)
    requires vd + carry * p == low * d
    requires av * d + carry == c * 10 + dig
    ensures (vd + dig * p) + c * (10 * p) == (low + av * p) * d
  {
    assert (av * d + carry) * p == (c * 10 + dig) * p;
    assert (low + av * p) * d == low * d + (av * d) * p;
  }

  /** `mulDigit` by a decimal digit d gives the magnitude of |a| * d, at most one slot longer than a. */
  lemma MulDigitValue(a: seq<int>, d: int)
    requires Bounded(a) && 0 <= d <= 9
    ensures AV(a) * d >= 0 && MulDigitSeq(a, d) == DigitsOf(AV(a) * d)
    ensures |MulDigitSeq(a, d)| <= |a| + 1
  {
    if d != 0 && |a| != 0 {
      var n := |a|;
      var p := MulPass(a, d, n);
      MulPassValue(a, d, n);
      LowBeyond(AbsDigits(a), n);
      var raw := p.digits + [p.carry];
      ValueAppend(p.digits, p.carry);
      assert NonNeg(raw);
      var t := TrimSeq(raw);
      TrimValue(raw);
      assert NonNeg(t);
      AbsNonNeg(a);
      MulMono(0, AV(a), d);
      MagnitudeUnique(t, DigitsOf(AV(a) * d));
    } else {
      AbsNonNeg(a);
      MulMono(0, AV(a), d);
      if d == 0 {
        assert AV(a) * d == 0;
      } else {
        assert AV(a) == 0;
      }
    }
  }

  lemma AbsNonNeg(a: seq<int>)
    requires Bounded(a)
    ensures NonNeg(AbsDigits(a)) && AV(a) >= 0
  {
    NonNegBounds(AbsDigits(a));
  }

  // ---------------------------------------------------------------- pushFrontDigit

  /** `pushFrontDigit`: r * 10 + d by inserting d below slot 0, leaving zero as zero. */
  function PushFront(r: seq<int>, d: int): seq<int>
  {
    if |r| == 0 && d == 0 then [] else [d] + r
  }

  /** Pushing d multiplies by ten and adds d; a digit pushed onto a magnitude keeps it a magnitude. */
  lemma PushFrontValue(r: seq<int>, d: int)
    ensures Value(PushFront(r, d)) == 10 * Value(r) + d
    ensures IsMagnitude(r) && 0 <= d <= 9 ==> IsMagnitude(PushFront(r, d))
  {
    if |r| > 0 || d != 0 {
      assert ([d] + r)[1..] == r;
    }
  }
}
