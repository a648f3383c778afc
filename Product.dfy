/** Schoolbook multiplication as BigInt.cpp `operator*` performs it: for every
    slot i of b a row pass adds b[i] * a[j] into slot i + j of the product
    buffer with a running carry, and the row's last carry is added into slot
    i + |a|. The functions follow the two loops; the lemmas give the value,
    the slot bounds and, for operands of one sign, the canonical product. */
module Product {
  import opened Arith
  import opened Digits

  /** The first j steps of row i: slot i + k receives buf[i + k] + bi * a[k]
      plus the carry, stored through `mod` with the truncated quotient carried. */
  function RowPass(buf: seq<int>, a: seq<int>, bi: int, i: nat, j: nat): (p: PassState)
    requires j <= |a| && i + j <= |buf|
    ensures |p.digits| == |buf|
  {
    if j == 0 then PassState(buf, 0)
    else
      var p := RowPass(buf, a, bi, i, j - 1);
      var k := i + j - 1;
      var tmp := p.digits[k] + bi * a[j - 1] + p.carry;
      PassState(p.digits[k := Mod(tmp, 10)], Quot(tmp, 10))
  }

  /** Row i in full: the pass over every slot of a, then `+= carry` on slot i + |a|. */
  function Row(buf: seq<int>, a: seq<int>, bi: int, i: nat): (r: seq<int>)
    requires i + |a| < |buf|
    ensures |r| == |buf|
  {
    CarryInto(RowPass(buf, a, bi, i, |a|), i + |a|)
  }

  /** `+= carry` on slot k of a pass's buffer. */
  function CarryInto(p: PassState, k: nat): (r: seq<int>)
    requires k < |p.digits|
    ensures |r| == |p.digits|
  {
    p.digits[k := p.digits[k] + p.carry]
  }

  /** The product buffer after the first i rows, starting from |a| + |b| zero slots. */
  function Rows(a: seq<int>, b: seq<int>, i: nat): (r: seq<int>)
    requires i <= |b|
    ensures |r| == |a| + |b|
  {
    if i == 0 then seq(|a| + |b|, _ => 0)
    else Row(Rows(a, b, i - 1), a, b[i - 1], i - 1)
  }

  /** `operator*`: zero when either operand is zero, otherwise every row and then `trim`. */
  function MulSeq(a: seq<int>, b: seq<int>): seq<int>
  {
    if |a| == 0 || |b| == 0 then [] else TrimSeq(Rows(a, b, |b|))
  }

  // ---------------------------------------------------------------- value

  /** After j steps of row i, the buffer plus the pending carry has gained bi * low_j(a) * 10^i. */
  lemma {:induction false} RowPassValue(buf: seq<int>, a: seq<int>, bi: int, i: nat, j: nat)
    requires j <= |a| && i + j <= |buf|
    ensures Value(RowPass(buf, a, bi, i, j).digits) + RowPass(buf, a, bi, i, j).carry * Pow10(i + j)
         == Value(buf) + bi * Low(a, j) * Pow10(i)
  {
    if j > 0 {
      RowPassValue(buf, a, bi, i, j - 1);
      var p := RowPass(buf, a, bi, i, j - 1);
      var k := i + j - 1;
      var tmp := p.digits[k] + bi * a[j - 1] + p.carry;
      var d, c := Mod(tmp, 10), Quot(tmp, 10);
      ValueUpdate(p.digits, k, d);
      Pow10Add(i, j - 1);
      var P, pi, pj := Pow10(k), Pow10(i), Pow10(j - 1);
      assert Pow10(i + j) == 10 * P;
      assert Low(a, j) == Low(a, j - 1) + a[j - 1] * pj;
      RowArith(Value(p.digits), p.carry, p.digits[k], bi, a[j - 1], d, c, P, pi, pj, Low(a, j - 1), Value(buf));
    }
  }

  /** One multiply-accumulate step in arithmetic terms, at place value P = Pi * Pj. */
  lemma RowArith(vd: int, carry: int, old_k: int, bi: int, aj: int, d: int, c: int,
                 P: int, pi: int, pj: int, low: int, base: int)
    requires P == pi * pj
    requires vd + carry * P == base + bi * low * pi
    requires old_k + bi * aj + carry == c * 10 + d
    ensures (vd + (d - old_k) * P) + c * (10 * P) == base + bi * (low + aj * pj) * pi
  {
    assert (old_k + bi * aj + carry) * P == (c * 10 + d) * P;
    assert bi * (low + aj * pj) * pi == bi * low * pi + (bi * aj) * P;
  }

  /** A whole row adds bi * value(a) * 10^i. */
  lemma RowValue(buf: seq<int>, a: seq<int>, bi: int, i: nat)
    requires i + |a| < |buf|
    ensures Value(Row(buf, a, bi, i)) == Value(buf) + bi * Value(a) * Pow10(i)
  {
    RowUnfold(buf, a, bi, i);
    PassThenCarry(buf, a, bi, i);
  }

  lemma RowUnfold(buf: seq<int>, a: seq<int>, bi: int, i: nat)
    requires i + |a| < |buf|
    ensures Row(buf, a, bi, i) == CarryInto(RowPass(buf, a, bi, i, |a|), i + |a|)
  {
  }

  lemma PassThenCarry(buf: seq<int>, a: seq<int>, bi: int, i: nat)
    requires i + |a| < |buf|
    ensures Value(CarryInto(RowPass(buf, a, bi, i, |a|), i + |a|)) == Value(buf) + bi * Value(a) * Pow10(i)
  {
    var n := |a|;
    var p := RowPass(buf, a, bi, i, n);
    RowPassValue(buf, a, bi, i, n);
    LowBeyond(a, n);
    CarryInValue(p, i + n);
  }

  /** Adding the carry into slot k adds carry * 10^k to the buffer's value. */
  lemma CarryInValue(p: PassState, k: nat)
    requires k < |p.digits|
    ensures Value(CarryInto(p, k)) == Value(p.digits) + p.carry * Pow10(k)
  {
    var ds := p.digits;
    ValueUpdate(ds, k, ds[k] + p.carry);
    var P := Pow10(k);
    assert (ds[k] + p.carry - ds[k]) * P == p.carry * P;
  }

  /** After i rows the buffer holds value(a) * value(first i slots of b). */
  lemma {:induction false} RowsValue(a: seq<int>, b: seq<int>, i: nat)
    requires i <= |b|
    ensures Value(Rows(a, b, i)) == Value(a) * Low(b, i)
  {
    if i == 0 {
      ZerosValue(|a| + |b|);
    } else {
      RowsValue(a, b, i - 1);
      RowValue(Rows(a, b, i - 1), a, b[i - 1], i - 1);
      RowsArith(Value(a), Low(b, i - 1), b[i - 1], Pow10(i - 1));
    }
  }

  lemma RowsArith(va: int, low: int, bi: int, p: int)
    ensures va * low + bi * va * p == va * (low + bi * p)
  {
  }

  /** `operator*` keeps the value: value(a * b) == value(a) * value(b). */
  lemma MulValue(a: seq<int>, b: seq<int>)
    ensures Value(MulSeq(a, b)) == Value(a) * Value(b)
  {
    if |a| == 0 || |b| == 0 {
      assert Value(a) == 0 || Value(b) == 0;
    } else {
      RowsValue(a, b, |b|);
      LowBeyond(b, |b|);
      TrimValue(Rows(a, b, |b|));
    }
  }

  // ---------------------------------------------------------------- slot bounds and signs

  /** A slot in [-9, 9] when s == 0, and additionally of sign s when s is 1 or -1. */
  predicate SlotIn(x: int, s: int)
  {
    if s == 0 then -9 <= x <= 9 else if s < 0 then -9 <= x <= 0 else 0 <= x <= 9
  }

  /** Every slot of ds satisfies SlotIn(_, s). */
  predicate AllIn(ds: seq<int>, s: int)
  {
    forall k :: 0 <= k < |ds| ==> SlotIn(ds[k], s)
  }

  /** The sign two operand modes give their products: 0 when either operand is unsigned. */
  function Mode(sa: int, sb: int): int
  {
    if sa == 0 || sb == 0 then 0 else if (sa < 0) == (sb < 0) then 1 else -1
  }

  /** x carries sign s and lies within m of zero (or anywhere in [-m, m] when s == 0). */
  predicate WithinOf(x: int, s: int, m: int)
  {
    if s == 0 then -m <= x <= m else if s < 0 then -m <= x <= 0 else 0 <= x <= m
  }

  /** The product of two slots is within 81 and carries the product mode. */
  lemma TermRange(x: int, y: int, sx: int, sy: int)
    requires SlotIn(x, sx) && SlotIn(y, sy)
    ensures WithinOf(x * y, Mode(sx, sy), 81)
  {
    var ax, ay := Abs(x), Abs(y);
    MulMono(ax, 9, ay);
    MulMono(ay, 9, 9);
    assert Abs(x * y) == ax * ay by {
      if x < 0 {
        assert x * y == -(ax * y);
      }
      if y < 0 {
        assert ax * y == -(ax * ay);
      }
    }
  }

  /** A slot, a term and a carry of one mode sum to at most 99, which stores a slot and carries at most 9 of that mode. */
  lemma StepRange(q: int, t: int, c: int, s: int)
    requires SlotIn(q, s) && WithinOf(t, s, 81) && WithinOf(c, s, 9)
    ensures SlotIn(Mod(q + t + c, 10), s) && WithinOf(Quot(q + t + c, 10), s, 9)
  {
  }

  /** Row passes keep every slot in range, carry at most 9 of the mode, and leave slots outside [i, i + j) alone. */
  lemma {:induction false} RowPassRange(buf: seq<int>, a: seq<int>, bi: int, i: nat, j: nat, sa: int, sb: int)
    requires j <= |a| && i + j <= |buf|
    requires AllIn(buf, Mode(sa, sb)) && AllIn(a, sa) && SlotIn(bi, sb)
    ensures var p := RowPass(buf, a, bi, i, j);
            && AllIn(p.digits, Mode(sa, sb))
            && WithinOf(p.carry, Mode(sa, sb), 9)
            && (forall k :: 0 <= k < |buf| && !(i <= k < i + j) ==> p.digits[k] == buf[k])
  {
    if j > 0 {
      RowPassRange(buf, a, bi, i, j - 1, sa, sb);
      var p := RowPass(buf, a, bi, i, j - 1);
      var k := i + j - 1;
      TermRange(bi, a[j - 1], sb, sa);
      assert Mode(sb, sa) == Mode(sa, sb);
      assert bi * a[j - 1] == a[j - 1] * bi;
      StepRange(p.digits[k], bi * a[j - 1], p.carry, Mode(sa, sb));
    }
  }

  /** After i rows every slot is in range and the slots from i + |a| up are still zero. */
  lemma {:induction false} RowsRange(a: seq<int>, b: seq<int>, i: nat, sa: int, sb: int)
    requires i <= |b| && AllIn(a, sa) && AllIn(b, sb)
    ensures AllIn(Rows(a, b, i), Mode(sa, sb))
    ensures forall k :: i + |a| <= k < |a| + |b| ==> Rows(a, b, i)[k] == 0
  {
    if i > 0 {
      RowsRange(a, b, i - 1, sa, sb);
      var buf := Rows(a, b, i - 1);
      var n := |a|;
      RowPassRange(buf, a, b[i - 1], i - 1, n, sa, sb);
      var p := RowPass(buf, a, b[i - 1], i - 1, n);
      assert p.digits[i - 1 + n] == 0;
    }
  }

  /** Every stored slot of the product lies in (-10, 10), for any operands with slots in (-10, 10). */
  lemma MulBounded(a: seq<int>, b: seq<int>)
    requires Bounded(a) && Bounded(b)
    ensures Bounded(MulSeq(a, b))
  {
    if |a| > 0 && |b| > 0 {
      assert AllIn(a, 0) && AllIn(b, 0);
      RowsRange(a, b, |b|, 0, 0);
    }
  }

  /** For canonical operands the product is the canonical representation of value(a) * value(b). */
  lemma MulCanonical(a: seq<int>, b: seq<int>)
    requires Canonical(a) && Canonical(b)
    ensures MulSeq(a, b) == CanonicalOf(Value(a) * Value(b))
  {
    MulValue(a, b);
    if |a| > 0 && |b| > 0 {
      var sa := if NonNeg(a) then 1 else -1;
      var sb := if NonNeg(b) then 1 else -1;
      assert AllIn(a, sa) && AllIn(b, sb);
      RowsRange(a, b, |b|, sa, sb);
      var r := Rows(a, b, |b|);
      assert NonNeg(r) || NonPos(r);
      TrimCanonical(r);
    } else {
      assert MulSeq(a, b) == [];
    }
  }

  /** One, the slot sequence [1], is a neutral element of `operator*` on both sides. */
  lemma MulOne(a: seq<int>)
    requires Canonical(a)
    ensures MulSeq(a, [1]) == a && MulSeq([1], a) == a
  {
    assert Value([1]) == 1 by {
      assert [1][1..] == [];
    }
    MulCanonical(a, [1]);
    MulCanonical([1], a);
    CanonicalIsUnique(a);
  }

  /** `operator*` is commutative on canonical operands. */
  lemma MulComm(a: seq<int>, b: seq<int>)
    requires Canonical(a) && Canonical(b)
    ensures MulSeq(a, b) == MulSeq(b, a)
  {
    MulCanonical(a, b);
    MulCanonical(b, a);
    assert Value(a) * Value(b) == Value(b) * Value(a);
  }
}
