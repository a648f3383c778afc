/** The first carry pass that every signed addition runs (BigInt.cpp `+`,
    ops.cpp `operator+`, diff.cpp `add`), and the renormalisation pass the
    two older drafts run after it. Both work slot by slot with the C++
    truncating `/ 10` and the sign-keeping `mod(x, 10)`. */
module Carry {
  import opened Arith
  import opened Digits

  /** The first i steps of the carry pass over a and b: slot k receives
      mod(a[k] + b[k] + carry, 10) and the carry becomes (a[k] + b[k] + carry) / 10. */
  function Pass(a: seq<int>, b: seq<int>, i: nat): (p: PassState)
    ensures |p.digits| == i
  {
    if i == 0 then PassState([], 0)
    else
      var p := Pass(a, b, i - 1);
      var x := At(a, i - 1) + At(b, i - 1) + p.carry;
      PassState(p.digits + [Mod(x, 10)], Quot(x, 10))
  }

  /** The buffer the first pass leaves: max(|a|, |b|) + 1 slots. */
  function CarrySeq(a: seq<int>, b: seq<int>): (ds: seq<int>)
    ensures |ds| == Max(|a|, |b|) + 1
  {
    Pass(a, b, Max(|a|, |b|) + 1).digits
  }

  /** Each step keeps value(slots) + carry * 10^i equal to the sum of the low parts. */
  lemma {:induction false} PassValue(a: seq<int>, b: seq<int>, i: nat)
    ensures Value(Pass(a, b, i).digits) + Pass(a, b, i).carry * Pow10(i) == Low(a, i) + Low(b, i)
  {
    if i > 0 {
      var p := Pass(a, b, i - 1);
      PassValue(a, b, i - 1);
      var x := At(a, i - 1) + At(b, i - 1) + p.carry;
      var d, c := Mod(x, 10), Quot(x, 10);
      var P := Pow10(i - 1);
      ValueAppend(p.digits, d);
      CarryStep(Value(p.digits), p.carry, At(a, i - 1), At(b, i - 1), d, c, P, Low(a, i - 1), Low(b, i - 1));
    }
  }

  /** One slot of the pass in arithmetic terms: the slot sum x = ea + eb + carry
      is split as 10c + d at place value P. */
  lemma CarryStep(vd: int, carry: int, ea: int, eb: int, d: int, c: int, P: int, la: int, lb: int)
    requires vd + carry * P == la + lb
    requires ea + eb + carry == c * 10 + d
    ensures (vd + d * P) + c * (10 * P) == (la + ea * P) + (lb + eb * P)
  {
    assert (ea + eb + carry) * P == (c * 10 + d) * P;
  }

  /** On bounded inputs the carry stays in [-1, 1] and the slots in (-10, 10);
      on inputs of one sign the slots and the carry keep that sign. */
  lemma {:induction false} PassBounds(a: seq<int>, b: seq<int>, i: nat)
    ensures Bounded(a) && Bounded(b) ==> -1 <= Pass(a, b, i).carry <= 1 && Bounded(Pass(a, b, i).digits)
    ensures NonNeg(a) && NonNeg(b) ==> 0 <= Pass(a, b, i).carry <= 1 && NonNeg(Pass(a, b, i).digits)
    ensures NonPos(a) && NonPos(b) ==> -1 <= Pass(a, b, i).carry <= 0 && NonPos(Pass(a, b, i).digits)
  {
    if i > 0 {
      var p := Pass(a, b, i - 1);
      PassBounds(a, b, i - 1);
      var x := At(a, i - 1) + At(b, i - 1) + p.carry;
      DigitRange(x);
    }
  }

  /** The digit and carry of a slot sum x with |x| <= 19. */
  lemma DigitRange(x: int)
    ensures -19 <= x <= 19 ==> -1 <= Quot(x, 10) <= 1 && -10 < Mod(x, 10) < 10
    ensures 0 <= x <= 19 ==> 0 <= Quot(x, 10) <= 1 && 0 <= Mod(x, 10) <= 9
    ensures -19 <= x <= 0 ==> -1 <= Quot(x, 10) <= 0 && -9 <= Mod(x, 10) <= 0
  {
  }

  /** The slot above both operands receives only the carry, so no carry leaves the buffer. */
  lemma CarryOut(a: seq<int>, b: seq<int>)
    requires Bounded(a) && Bounded(b)
    ensures Pass(a, b, Max(|a|, |b|) + 1).carry == 0
  {
    var n := Max(|a|, |b|);
    PassBounds(a, b, n);
  }

  /** The first pass keeps the value: value(CarrySeq(a, b)) == value(a) + value(b), with every slot in (-10, 10). */
  lemma CarryValue(a: seq<int>, b: seq<int>)
    requires Bounded(a) && Bounded(b)
    ensures Value(CarrySeq(a, b)) == Value(a) + Value(b)
    ensures Bounded(CarrySeq(a, b))
  {
    var n := Max(|a|, |b|) + 1;
    PassValue(a, b, n);
    PassBounds(a, b, n);
    CarryOut(a, b);
    LowBeyond(a, n);
    LowBeyond(b, n);
  }

  /** Operands whose slots share one sign give slots of that sign. */
  lemma CarrySameSign(a: seq<int>, b: seq<int>)
    ensures NonNeg(a) && NonNeg(b) ==> NonNeg(CarrySeq(a, b))
    ensures NonPos(a) && NonPos(b) ==> NonPos(CarrySeq(a, b))
  {
    PassBounds(a, b, Max(|a|, |b|) + 1);
  }

  /** The pass does not depend on the order of its operands. */
  lemma {:induction false} PassSymmetric(a: seq<int>, b: seq<int>, i: nat)
    ensures Pass(a, b, i) == Pass(b, a, i)
  {
    if i > 0 {
      PassSymmetric(a, b, i - 1);
    }
  }

  /** For canonical operands of one sign, trimming the first pass gives the canonical sum. */
  lemma CarryCanonical(a: seq<int>, b: seq<int>)
    requires Canonical(a) && Canonical(b)
    requires (NonNeg(a) && NonNeg(b)) || (NonPos(a) && NonPos(b))
    ensures TrimSeq(CarrySeq(a, b)) == CanonicalOf(Value(a) + Value(b))
  {
    var cs := CarrySeq(a, b);
    CarryValue(a, b);
    CarrySameSign(a, b);
    assert NonNeg(cs) || NonPos(cs);
    TrimCanonical(cs);
    assert Value(cs) == Value(a) + Value(b);
  }

  method CarryPass(a: seq<int>, b: seq<int>) returns (buf: array<int>)
    ensures fresh(buf) && buf[..] == CarrySeq(a, b)
  {
    var n := Max(|a|, |b|) + 1;
    buf := new int[n](_ => 0);
    var carry := 0;
    var i := 0;
    while i < n
      invariant 0 <= i <= n
      invariant buf[..i] == Pass(a, b, i).digits && carry == Pass(a, b, i).carry
    {
      var o1 := if i < |a| then a[i] else 0;
      var o2 := if i < |b| then b[i] else 0;
      var x := o1 + o2 + carry;
      carry := Quot(x, 10);
      buf[i] := Mod(x, 10);
      assert buf[..i + 1] == buf[..i] + [buf[i]];
      i := i + 1;
    }
    assert buf[..] == buf[..n];
  }

  // ---------------------------------------------------------------- renormalisation

  /** Bounded slots with a non-zero top slot: the value is non-zero and has the top slot's sign. */
  lemma {:induction false} TopDigitSign(ds: seq<int>)
    requires Bounded(ds) && |ds| > 0 && ds[|ds| - 1] != 0
    ensures ds[|ds| - 1] > 0 ==> Value(ds) > 0
    ensures ds[|ds| - 1] < 0 ==> Value(ds) < 0
  {
    var n := |ds|;
    var low := ds[..n - 1];
    assert ds == low + [ds[n - 1]];
    ValueAppend(low, ds[n - 1]);
    BoundedBounds(low);
    TopTerm(Value(low), ds[n - 1], Pow10(n - 1));
  }

  /** A non-zero top term outweighs a lower part smaller than its place value. */
  lemma TopTerm(low: int, d: int, p: int)
    requires p >= 1 && -p < low < p && d != 0
    ensures d > 0 ==> low + d * p > 0
    ensures d < 0 ==> low + d * p < 0
  {
    if d > 0 {
      MulAtLeast(d, p);
    } else {
      MulAtLeast(-d, p);
    }
  }

  /** x is a decimal digit of sign s. */
  predicate DigitOfSign(x: int, s: int)
  {
    if s < 0 then -9 <= x <= 0 else 0 <= x <= 9
  }

  /** The first i slots of the renormalisation of ds towards sign s: slot 0
      receives 10s, every later slot 9s plus the carry, each stored as
      mod(x, 10) with x / 10 carried on. */
  function RenormPass(ds: seq<int>, sign: int, i: nat): (p: PassState)
    ensures |p.digits| == i
  {
    if i == 0 then PassState([], 0)
    else
      var p := RenormPass(ds, sign, i - 1);
      var x := At(ds, i - 1) + (if i == 1 then 10 * sign else 9 * sign) + p.carry;
      PassState(p.digits + [Mod(x, 10)], Quot(x, 10))
  }

  /** The whole renormalisation of ds, whose last touched slot is top: the
      slots below top as RenormPass leaves them, slot top receiving -s plus
      the carry without being reduced mod 10, and the slots above unchanged. */
  function Renormed(ds: seq<int>, top: nat, sign: int): (r: seq<int>)
    requires top < |ds|
    ensures |r| == |ds|
  {
    var p := RenormPass(ds, sign, top);
    p.digits + [ds[top] - sign + p.carry] + ds[top + 1..]
  }

  /** One renormalising slot in arithmetic terms: slot e plus 9s plus the carry is split as 10c + d at place value P. */
  lemma RenormArith(vd: int, carry: int, e: int, d: int, c: int, P: int, low: int, sign: int)
    requires vd + carry * P == low + sign * P
    requires e + 9 * sign + carry == c * 10 + d
    ensures (vd + d * P) + c * (10 * P) == (low + e * P) + sign * (10 * P)
  {
    assert (e + 9 * sign + carry) * P == (c * 10 + d) * P;
  }

  /** After i slots the pattern added so far is s * 10^i: value(slots) + carry * 10^i
      == low part of ds + s * 10^i. */
  lemma {:induction false} RenormPassValue(ds: seq<int>, sign: int, i: nat)
    requires 1 <= i
    ensures Value(RenormPass(ds, sign, i).digits) + RenormPass(ds, sign, i).carry * Pow10(i)
         == Low(ds, i) + sign * Pow10(i)
  {
    var p := RenormPass(ds, sign, i - 1);
    if i == 1 {
      var x := At(ds, 0) + 10 * sign;
      assert RenormPass(ds, sign, 1) == PassState([Mod(x, 10)], Quot(x, 10));
      assert Value([Mod(x, 10)]) == Mod(x, 10);
      assert Low(ds, 1) == At(ds, 0);
    } else {
      RenormPassValue(ds, sign, i - 1);
      var x := At(ds, i - 1) + 9 * sign + p.carry;
      var d, c := Mod(x, 10), Quot(x, 10);
      assert RenormPass(ds, sign, i) == PassState(p.digits + [d], c);
      ValueAppend(p.digits, d);
      RenormArith(Value(p.digits), p.carry, At(ds, i - 1), d, c, Pow10(i - 1), Low(ds, i - 1), sign);
    }
  }

  /** On slots in (-10, 10) the carry stays 0 or s and every slot written is a
      digit of sign s; a non-zero first slot of sign s carries s. */
  lemma {:induction false} RenormPassDigits(ds: seq<int>, sign: int, i: nat)
    requires i <= |ds| && (sign == 1 || sign == -1)
    requires forall k :: 0 <= k < i ==> -10 < ds[k] < 10
    ensures RenormPass(ds, sign, i).carry == 0 || RenormPass(ds, sign, i).carry == sign
    ensures forall k :: 0 <= k < i ==> DigitOfSign(RenormPass(ds, sign, i).digits[k], sign)
    ensures i == 1 && ds[0] != 0 && (ds[0] < 0 <==> sign < 0) ==> RenormPass(ds, sign, i).carry == sign
  {
    if i > 0 {
      var p := RenormPass(ds, sign, i - 1);
      RenormPassDigits(ds, sign, i - 1);
      RenormPassStep(ds, sign, i - 1);
      SlotRange(ds[i - 1], sign, p.carry, i == 1);
    }
  }

  /** One renormalising slot e in (-10, 10) with carry 0 or s (0 at slot 0)
      stores a digit of sign s and carries 0 or s. */
  lemma SlotRange(e: int, sign: int, carry: int, first: bool)
    requires -10 < e < 10 && (sign == 1 || sign == -1)
    requires carry == 0 || carry == sign
    requires first ==> carry == 0
    ensures var x := e + (if first then 10 * sign else 9 * sign) + carry;
            && DigitOfSign(Mod(x, 10), sign)
            && (Quot(x, 10) == 0 || Quot(x, 10) == sign)
            && (first && e != 0 && (e < 0 <==> sign < 0) ==> Quot(x, 10) == sign)
  {
  }

  /** The last touched slot: a top slot b of sign s, or the zero slot above a single slot (then the carry is s), minus s plus the carry is a digit of sign s. */
  lemma LastDigit(b: int, carry: int, sign: int)
    requires sign == 1 || sign == -1
    requires carry == 0 || carry == sign
    requires (b == 0 && carry == sign) || (-10 < b < 10 && b != 0 && (b < 0 <==> sign < 0))
    ensures DigitOfSign(b - sign + carry, sign)
  {
  }

  /** The renormalisation keeps the value and leaves every slot a digit of sign s,
      when s is the sign of the top slot, or the window is one non-zero slot of
      sign s followed by a zero slot. */
  lemma RenormedFacts(ds: seq<int>, top: nat, sign: int)
    requires 1 <= top < |ds| && (sign == 1 || sign == -1) && Bounded(ds[..top + 1])
    requires || (ds[top] != 0 && (ds[top] < 0 <==> sign < 0))
             || (top == 1 && ds[1] == 0 && ds[0] != 0 && (ds[0] < 0 <==> sign < 0))
    ensures Value(Renormed(ds, top, sign)[..top + 1]) == Value(ds[..top + 1])
    ensures SignedBy(Renormed(ds, top, sign)[..top + 1], sign)
  {
    var p := RenormPass(ds, sign, top);
    RenormPassValue(ds, sign, top);
    RenormPassDigits(ds, sign, top);
    var last := ds[top] - sign + p.carry;
    LastDigit(ds[top], p.carry, sign);
    var r := Renormed(ds, top, sign)[..top + 1];
    assert r == p.digits + [last];
    ValueAppend(p.digits, last);
    assert ds[..top + 1] == ds[..top] + [ds[top]];
    ValueAppend(ds[..top], ds[top]);
    ValuePrefix(ds, top);
    assert Value(r) == Value(ds[..top + 1]) by {
      PatternCancel(sign, Pow10(top), p.carry, ds[top]);
    }
    assert forall k :: 0 <= k <= top ==> DigitOfSign(r[k], sign);
  }

  /** The pattern closes: s * P added so far, then -s plus the carry at P, leaves exactly the slot's own contribution. */
  lemma PatternCancel(sign: int, P: int, carry: int, e: int)
    ensures sign * P + (e - sign + carry) * P == e * P + carry * P
  {
  }

  /** The renormalisation pass of ops.cpp and diff.cpp over the len slots
      of buf left by the first pass and its trim: with s the sign of the
      top slot, it adds 10*s to slot 0, 9*s to each middle slot and -s to
      the last slot it touches (slot len-1, or slot 1 when len == 1),
      propagating carries, and returns the index of that last slot. */
  method Renormalize(buf: array<int>, len: nat) returns (top: nat)
    requires 1 <= len <= buf.Length
    requires len == 1 ==> 2 <= buf.Length
    modifies buf
    ensures top == if len == 1 then 1 else len - 1
    ensures buf[..] == Renormed(old(buf[..]), top, Sign(old(buf[len - 1])))
  {
    ghost var orig := buf[..];
    var sign := if buf[len - 1] < 0 then -1 else 1;
    top := if len == 1 then 1 else len - 1;
    var carry := RenormSlots(buf, orig, sign, top);
    ghost var before := buf[..];
    assert before == buf[..top] + buf[top..];
    SlotWritten(before, RenormPass(orig, sign, top).digits, orig, top, orig[top] - sign + carry);
    buf[top] := buf[top] - sign + carry;
    assert buf[..] == before[top := orig[top] - sign + carry];
    assert sign == Sign(orig[len - 1]);
  }

  /** Slots 0 to top - 1 of the renormalisation: slot 0 receives 10*s, each
      later slot 9*s plus the carry, every one reduced mod 10. */
  method RenormSlots(buf: array<int>, ghost orig: seq<int>, sign: int, top: nat) returns (carry: int)
    requires 1 <= top < |orig| == buf.Length && buf[..] == orig
    modifies buf
    ensures buf[..top] == RenormPass(orig, sign, top).digits && buf[top..] == orig[top..]
    ensures carry == RenormPass(orig, sign, top).carry
  {
    RenormPassStep(orig, sign, 0);
    var x := buf[0] + 10 * sign;
    carry := Quot(x, 10);
    buf[0] := Mod(x, 10);
    assert buf[..1] == [Mod(x, 10)];
    var i := 1;
    while i < top
      invariant 1 <= i <= top
      invariant buf[..i] == RenormPass(orig, sign, i).digits && buf[i..] == orig[i..]
      invariant carry == RenormPass(orig, sign, i).carry
    {
      RenormPassStep(orig, sign, i);
      assert buf[i] == orig[i];
      x := buf[i] + 9 * sign + carry;
      carry := Quot(x, 10);
      buf[i] := Mod(x, 10);
      assert buf[..i + 1] == buf[..i] + [Mod(x, 10)];
      i := i + 1;
    }
  }

  /** RenormPass one slot further. */
  lemma RenormPassStep(ds: seq<int>, sign: int, i: nat)
    requires i < |ds|
    ensures var p := RenormPass(ds, sign, i);
            var x := ds[i] + (if i == 0 then 10 * sign else 9 * sign) + p.carry;
            RenormPass(ds, sign, i + 1) == PassState(p.digits + [Mod(x, 10)], Quot(x, 10))
  {
  }

  /** Writing slot i of a buffer that holds i finished slots followed by the rest of orig. */
  lemma SlotWritten(buf: seq<int>, done: seq<int>, orig: seq<int>, i: nat, d: int)
    requires |done| == i < |orig| && buf == done + orig[i..]
    ensures buf[i] == orig[i]
    ensures buf[i := d] == done + [d] + orig[i + 1..]
  {
  }
}
