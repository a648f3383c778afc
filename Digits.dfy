/** Little-endian decimal digit sequences, the representation every version
    of BigInt stores in its `long` buffer: slot i holds the coefficient of
    10^i, every slot carries the sign of the number, and zero is the empty
    sequence. */
module Digits {
  import opened Arith

  /** The state of a pass over the slots: the slots written so far and the
      carry (or borrow) into the next slot. */
  datatype PassState = PassState(digits: seq<int>, carry: int)

  /** The number a digit sequence denotes: sum of ds[i] * 10^i. */
  function Value(ds: seq<int>): int
  {
    if |ds| == 0 then 0 else ds[0] + 10 * Value(ds[1..])
  }

  /** No zero slot on top: the form `trim` leaves behind. */
  predicate Trimmed(ds: seq<int>)
  {
    |ds| == 0 || ds[|ds| - 1] != 0
  }

  /** Every slot lies strictly between -10 and 10. */
  predicate Bounded(ds: seq<int>)
  {
    forall i :: 0 <= i < |ds| ==> -10 < ds[i] < 10
  }

  predicate NonNeg(ds: seq<int>)
  {
    forall i :: 0 <= i < |ds| ==> 0 <= ds[i] <= 9
  }

  predicate NonPos(ds: seq<int>)
  {
    forall i :: 0 <= i < |ds| ==> -9 <= ds[i] <= 0
  }

  /** Every slot is a decimal digit carrying the sign s (s < 0: non-positive, else non-negative). */
  predicate SignedBy(ds: seq<int>, s: int)
  {
    if s < 0 then NonPos(ds) else NonNeg(ds)
  }

  /** A trimmed sequence of digits 0..9: the magnitudes `absSub` and `mulDigit` produce. */
  predicate IsMagnitude(ds: seq<int>)
  {
    Trimmed(ds) && NonNeg(ds)
  }

  /** The representation the finished BigInt intends: trimmed, with one sign for all slots. */
  predicate Canonical(ds: seq<int>)
  {
    Trimmed(ds) && (NonNeg(ds) || NonPos(ds))
  }

  /** Slot i, or 0 past the end (the `(i < len) ? val[i] : 0` of the carry loops). */
  function At(ds: seq<int>, i: nat): int
  {
    if i < |ds| then ds[i] else 0
  }

  /** Value of the first i slots, reading missing slots as 0. */
  function Low(ds: seq<int>, i: nat): int
  {
    if i == 0 then 0 else Low(ds, i - 1) + At(ds, i - 1) * Pow10(i - 1)
  }

  function Negate(ds: seq<int>): (r: seq<int>)
    ensures |r| == |ds|
  {
    seq(|ds|, i requires 0 <= i < |ds| => -ds[i])
  }

  /** Every slot multiplied by a sign s in {-1, 1}. */
  function Scale(ds: seq<int>, s: int): (r: seq<int>)
    ensures |r| == |ds|
  {
    if s < 0 then Negate(ds) else ds
  }

  /** `std::abs` applied to every slot. */
  function AbsDigits(ds: seq<int>): (r: seq<int>)
    ensures |r| == |ds|
  {
    seq(|ds|, i requires 0 <= i < |ds| => Abs(ds[i]))
  }

  /** The magnitude long division works with: the value of the slot-wise absolute values. */
  function AV(ds: seq<int>): int
  {
    Value(AbsDigits(ds))
  }

  /** The sign the sources read off the top slot: -1 when it is negative, otherwise 1. */
  function TopSign(ds: seq<int>): int
  {
    if |ds| > 0 && ds[|ds| - 1] < 0 then -1 else 1
  }

  /** Drops zero slots from the top, as `trim` does by decrementing the length. */
  function TrimSeq(ds: seq<int>): (t: seq<int>)
    ensures |t| <= |ds| && t == ds[..|t|]
    ensures Trimmed(t)
    ensures forall i :: |t| <= i < |ds| ==> ds[i] == 0
  {
    if |ds| == 0 || ds[|ds| - 1] != 0 then ds else TrimSeq(ds[..|ds| - 1])
  }

  /** The magnitude digits of m, least significant first. */
  function DigitsOf(m: nat): (ds: seq<int>)
    ensures IsMagnitude(ds) && Value(ds) == m
  {
    if m == 0 then [] else [m % 10] + DigitsOf(m / 10)
  }

  /** The canonical representation of v: its magnitude digits, each carrying v's sign. */
  function CanonicalOf(v: int): (ds: seq<int>)
    ensures Canonical(ds) && Value(ds) == v
    ensures ds == [] <==> v == 0
  {
    var m := DigitsOf(Abs(v));
    NegateValue(m);
    Scale(m, Sign(v))
  }

  /** The first k decimal slots of m: slot i is (m / 10^i) % 10. */
  function Slots(m: nat, k: nat): (ds: seq<int>)
    ensures |ds| == k && NonNeg(ds)
  {
    seq(k, i requires 0 <= i < k => (m / Pow10(i)) % 10)
  }

  // ---------------------------------------------------------------- value

  lemma {:induction false} NegateValue(ds: seq<int>)
    ensures Value(Negate(ds)) == -Value(ds)
    ensures NonNeg(ds) ==> NonPos(Negate(ds))
    ensures NonPos(ds) ==> NonNeg(Negate(ds))
    ensures Trimmed(ds) ==> Trimmed(Negate(ds))
    ensures Negate(Negate(ds)) == ds
  {
    if |ds| > 0 {
      NegateValue(ds[1..]);
      assert Negate(ds)[1..] == Negate(ds[1..]);
    }
  }

  lemma {:induction false} ValueConcat(a: seq<int>, b: seq<int>)
    ensures Value(a + b) == Value(a) + Pow10(|a|) * Value(b)
  {
    if |a| > 0 {
      ValueConcat(a[1..], b);
      assert (a + b)[1..] == a[1..] + b;
      calc {
        Value(a + b);
        a[0] + 10 * Value(a[1..] + b);
        a[0] + 10 * (Value(a[1..]) + Pow10(|a| - 1) * Value(b));
        a[0] + 10 * Value(a[1..]) + (10 * Pow10(|a| - 1)) * Value(b);
      }
    } else {
      assert a + b == b;
    }
  }

  /** Appending a top slot x adds x * 10^|ds|. */
  lemma ValueAppend(ds: seq<int>, x: int)
    ensures Value(ds + [x]) == Value(ds) + x * Pow10(|ds|)
  {
    assert Value([x]) == x by {
      assert [x][1..] == [];
    }
    ValueConcat(ds, [x]);
    var v, p := Value(ds + [x]), Pow10(|ds|);
    assert v == Value(ds) + p * x;
    assert p * x == x * p;
  }

  /** The value of a prefix is the padded low part. */
  lemma {:induction false} ValuePrefix(ds: seq<int>, i: nat)
    requires i <= |ds|
    ensures Value(ds[..i]) == Low(ds, i)
  {
    if i > 0 {
      ValuePrefix(ds, i - 1);
      assert ds[..i] == ds[..i - 1] + [ds[i - 1]];
      ValueAppend(ds[..i - 1], ds[i - 1]);
    } else {
      assert ds[..0] == [];
    }
  }

  /** Slots past the end add nothing. */
  lemma {:induction false} LowBeyond(ds: seq<int>, i: nat)
    requires |ds| <= i
    ensures Low(ds, i) == Value(ds)
  {
    if i > |ds| {
      LowBeyond(ds, i - 1);
    } else {
      ValuePrefix(ds, i);
      assert ds[..i] == ds;
    }
  }

  /** Zero slots on top do not change the value. */
  lemma {:induction false} ValueZeros(ds: seq<int>, n: nat)
    ensures Value(ds + seq(n, _ => 0)) == Value(ds)
  {
    var z := seq(n, _ => 0);
    ValueConcat(ds, z);
    ZerosValue(n);
  }

  lemma {:induction false} ZerosValue(n: nat)
    ensures Value(seq(n, _ => 0)) == 0
  {
    if n > 0 {
      ZerosValue(n - 1);
      assert seq(n, _ => 0)[1..] == seq(n - 1, _ => 0);
    }
  }

  /** Overwriting slot k by x changes the value by (x - ds[k]) * 10^k. */
  lemma ValueUpdate(ds: seq<int>, k: nat, x: int)
    requires k < |ds|
    ensures Value(ds[k := x]) == Value(ds) + (x - ds[k]) * Pow10(k)
  {
    var pre, post := ds[..k], ds[k + 1..];
    assert ds == pre + ([ds[k]] + post);
    assert ds[k := x] == pre + ([x] + post);
    ValueConcat(pre, [ds[k]] + post);
    ValueConcat(pre, [x] + post);
    assert ([ds[k]] + post)[1..] == post;
    assert ([x] + post)[1..] == post;
    SwapSlot(Pow10(k), ds[k], x, Value(post));
  }

  lemma SwapSlot(p: int, a: int, b: int, v: int)
    ensures p * (b + 10 * v) == p * (a + 10 * v) + (b - a) * p
  {
  }

  /** Trimming preserves the value. */
  lemma {:induction false} TrimValue(ds: seq<int>)
    ensures Value(TrimSeq(ds)) == Value(ds)
  {
    var t := TrimSeq(ds);
    assert ds == t + seq(|ds| - |t|, _ => 0);
    ValueZeros(t, |ds| - |t|);
  }

  /** Trimming a sequence whose slots share one sign gives the canonical
      representation of its value. */
  lemma TrimCanonical(ds: seq<int>)
    requires NonNeg(ds) || NonPos(ds)
    ensures TrimSeq(ds) == CanonicalOf(Value(ds))
  {
    var t := TrimSeq(ds);
    TrimValue(ds);
    assert NonNeg(ds) ==> NonNeg(t);
    assert NonPos(ds) ==> NonPos(t);
    CanonicalIsUnique(t);
  }

  /** `trim` is idempotent: a trimmed sequence is left as it is. */
  lemma TrimIdempotent(ds: seq<int>)
    ensures TrimSeq(TrimSeq(ds)) == TrimSeq(ds)
    ensures Trimmed(ds) ==> TrimSeq(ds) == ds
  {
  }

  // ---------------------------------------------------------------- bounds

  lemma {:induction false} NonNegBounds(ds: seq<int>)
    requires NonNeg(ds)
    ensures 0 <= Value(ds) < Pow10(|ds|)
  {
    if |ds| > 0 {
      NonNegBounds(ds[1..]);
    }
  }

  lemma NonPosBounds(ds: seq<int>)
    requires NonPos(ds)
    ensures -Pow10(|ds|) < Value(ds) <= 0
  {
    NegateValue(ds);
    NonNegBounds(Negate(ds));
  }

  /** A value with slots in (-10, 10) is smaller than 10^len in magnitude. */
  lemma {:induction false} BoundedBounds(ds: seq<int>)
    requires Bounded(ds)
    ensures -Pow10(|ds|) < Value(ds) < Pow10(|ds|)
  {
    if |ds| > 0 {
      BoundedBounds(ds[1..]);
    }
  }

  /** A non-empty magnitude is at least 10^(len-1). */
  lemma {:induction false} MagnitudeLowerBound(ds: seq<int>)
    requires IsMagnitude(ds) && |ds| > 0
    ensures Pow10(|ds| - 1) <= Value(ds)
  {
    if |ds| > 1 {
      MagnitudeLowerBound(ds[1..]);
      NonNegBounds(ds[1..]);
    }
  }

  /** A canonical sequence is zero exactly when empty, and otherwise its value has the sign of its top slot. */
  lemma CanonicalSign(ds: seq<int>)
    requires Canonical(ds)
    ensures ds == [] <==> Value(ds) == 0
    ensures ds != [] ==> (Value(ds) < 0 <==> TopSign(ds) < 0)
  {
    if ds != [] {
      if NonNeg(ds) {
        MagnitudeLowerBound(ds);
      } else {
        NegateValue(ds);
        MagnitudeLowerBound(Negate(ds));
      }
    }
  }

  /** Slot-wise absolute values of a trimmed sequence with slots in (-10, 10) form a magnitude. */
  lemma AbsMagnitude(ds: seq<int>)
    requires Bounded(ds) && Trimmed(ds)
    ensures IsMagnitude(AbsDigits(ds))
  {
  }

  /** For a canonical sequence the slot-wise absolute values are the magnitude of its value. */
  lemma CanonicalAV(ds: seq<int>)
    requires Canonical(ds)
    ensures AbsDigits(ds) == Scale(ds, TopSign(ds))
    ensures IsMagnitude(AbsDigits(ds)) && AV(ds) == Abs(Value(ds))
  {
    CanonicalSign(ds);
    NegateValue(ds);
    if ds != [] && TopSign(ds) < 0 {
      assert !NonNeg(ds);
      assert AbsDigits(ds) == Negate(ds);
    } else {
      assert AbsDigits(ds) == ds;
    }
  }

  /** A magnitude of smaller value is no longer. */
  lemma MagnitudeLength(x: seq<int>, y: seq<int>)
    requires IsMagnitude(x) && IsMagnitude(y) && Value(x) <= Value(y)
    ensures |x| <= |y|
  {
    if |x| > |y| {
      MagnitudeLowerBound(x);
      NonNegBounds(y);
      Pow10Monotone(|y|, |x| - 1);
    }
  }

  // ---------------------------------------------------------------- uniqueness

  /** Two magnitudes with the same value are the same sequence. */
  lemma {:induction false} MagnitudeUnique(a: seq<int>, b: seq<int>)
    requires IsMagnitude(a) && IsMagnitude(b) && Value(a) == Value(b)
    ensures a == b
  {
    if a == [] || b == [] {
      if a != [] {
        MagnitudeLowerBound(a);
      }
      if b != [] {
        MagnitudeLowerBound(b);
      }
    } else {
      NonNegBounds(a[1..]);
      NonNegBounds(b[1..]);
      DivModUnique(Value(a), 10, Value(a[1..]), a[0]);
      DivModUnique(Value(b), 10, Value(b[1..]), b[0]);
      MagnitudeUnique(a[1..], b[1..]);
      assert a == [a[0]] + a[1..];
      assert b == [b[0]] + b[1..];
    }
  }

  /** The canonical representation of a value is unique: it is CanonicalOf of its value. */
  lemma CanonicalIsUnique(ds: seq<int>)
    requires Canonical(ds)
    ensures ds == CanonicalOf(Value(ds))
  {
    var v := Value(ds);
    CanonicalSign(ds);
    CanonicalOfShape(v);
    if NonNeg(ds) {
      MagnitudeUnique(ds, DigitsOf(v));
    } else {
      NegateValue(ds);
      MagnitudeUnique(Negate(ds), DigitsOf(-v));
    }
  }

  /** CanonicalOf(v) is the magnitude of v, negated slot by slot when v < 0. */
  lemma CanonicalOfShape(v: int)
    ensures v >= 0 ==> CanonicalOf(v) == DigitsOf(v)
    ensures v < 0 ==> CanonicalOf(v) == Negate(DigitsOf(-v))
  {
  }

  /** Slots(m, k) holds m mod 10^k. */
  lemma {:induction false} SlotsValue(m: nat, k: nat)
    ensures Value(Slots(m, k)) == m % Pow10(k)
  {
    if k > 0 {
      SlotsValue(m, k - 1);
      assert Slots(m, k) == Slots(m, k - 1) + [(m / Pow10(k - 1)) % 10];
      ValueAppend(Slots(m, k - 1), (m / Pow10(k - 1)) % 10);
      DivModPow10Step(m, k - 1);
    }
  }

  /** With exactly as many slots as m has digits, Slots(m, k) is the magnitude of m. */
  lemma SlotsAreDigits(m: nat, k: nat)
    requires k > 0 && Pow10(k - 1) <= m < Pow10(k)
    ensures Slots(m, k) == DigitsOf(m)
  {
    SlotsValue(m, k);
    DivModUnique(m, Pow10(k), 0, m);
    TopSlot(m, k - 1);
    MagnitudeUnique(Slots(m, k), DigitsOf(m));
  }

  /** The leading digit of a number with k + 1 digits is non-zero. */
  lemma TopSlot(m: nat, k: nat)
    requires Pow10(k) <= m < Pow10(k + 1)
    ensures 1 <= (m / Pow10(k)) % 10 <= 9
  {
    var p := Pow10(k);
    var q := m / p;
    assert m == q * p + m % p;
    if q == 0 {
      assert false;
    }
    if q >= 10 {
      MulMono(10, q, p);
      assert false;
    }
  }
}
