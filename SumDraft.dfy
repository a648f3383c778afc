/** sum.cpp, the first draft: a BigInt for numbers written with digits 0
    to 9, without signs and without trimming. Its member `add` runs the
    carry pass of Carry in two parts, over the slots both operands have and
    then over the tail of the longer one, and keeps the final carry in a
    slot of its own only when it is non-zero. */
module SumDraft {
  import opened Arith
  import opened Digits
  import opened Carry
  import opened Decimal

  // ---------------------------------------------------------------- construction

  /** The digit count of `BigInt(long n)` when the count starts at k: k
      grows while 10^k < n, so it stops at the first k with n <= 10^k. */
  function CountFrom(n: int, k: nat): (c: nat)
    requires k >= 1
    ensures c >= k && n <= Pow10(c) && (c == k || Pow10(c - 1) < n)
    decreases n - Pow10(k)
  {
    if Pow10(k) < n then CountFrom(n, k + 1) else k
  }

  /** The slots `BigInt(long n)` fills: one for n < 0 (the loop over t never
      runs), holding the C++ remainder n % 10; otherwise slot i is
      (n / 10^i) % 10 for CountFrom(n, 1) slots. */
  function LongSlotsAsWritten(n: int): seq<int>
  {
    if n < 0 then [Mod(n, 10)] else Slots(n, CountFrom(n, 1))
  }

  /** For n > 0 that is not 10, 100, 1000, ..., the slots are the decimal digits of n. */
  lemma LongSlotsDigits(n: int)
    requires n > 0 && forall j: nat :: 1 <= j ==> Pow10(j) != n
    ensures LongSlotsAsWritten(n) == DigitsOf(n)
  {
    var k := CountFrom(n, 1);
    assert Pow10(k) != n;
    SlotsAreDigits(n, k);
  }

  /** For n = 10^j the strict comparison stops one slot early: the j slots
      hold n % 10^j, which is 0. */
  lemma PowerOfTenLost(j: nat)
    requires j >= 1
    ensures |LongSlotsAsWritten(Pow10(j))| == j && Value(LongSlotsAsWritten(Pow10(j))) == 0
  {
    var n := Pow10(j);
    PowerCount(n, j, CountFrom(n, 1));
    SlotsValue(n, j);
    DivModUnique(n, n, 1, 0);
  }

  /** The count that stops at the first k with n <= 10^k is j for n = 10^j. */
  lemma PowerCount(n: int, j: nat, k: nat)
    requires j >= 1 && n == Pow10(j)
    requires k >= 1 && n <= Pow10(k) && (k == 1 || Pow10(k - 1) < n)
    ensures k == j
  {
    if k < j {
      Pow10Monotone(k, j - 1);
    } else if k > j {
      Pow10Monotone(j, k - 1);
    }
  }

  /** `BigInt(10)` is the single slot 0. */
  lemma TenIsZero()
    ensures LongSlotsAsWritten(10) == [0]
  {
    assert CountFrom(10, 1) == 1;
    assert Slots(10, 1) == [0];
  }

  /** The buffer of `BigInt(long n)`: count slots with t = 10, 100, ...
      while t < n, then slot i receives n % 10 and n becomes n / 10. */
  method StrictSlots(n: int) returns (buf: array<int>)
    requires n <= 1_000_000_000
    ensures fresh(buf) && buf[..] == LongSlotsAsWritten(n)
  {
    var length := 1;
    var t := 10;
    while t < n
      invariant length >= 1 && t == Pow10(length) && CountFrom(n, length) == CountFrom(n, 1)
      decreases n - t
    {
      t := t * 10;
      length := length + 1;
    }
    buf := new int[length];
    var un := n;
    var i := 0;
    while i < length
      invariant 0 <= i <= length == buf.Length
      invariant n >= 0 ==> un == n / Pow10(i)
      invariant n < 0 ==> length == 1 && (i == 0 ==> un == n)
      invariant buf[..i] == LongSlotsAsWritten(n)[..i]
    {
      FillStep(n, i, un);
      buf[i] := Mod(un, 10);
      un := Quot(un, 10);
      assert buf[..i + 1] == buf[..i] + [buf[i]];
      i := i + 1;
    }
  }

  /** Slot i of `BigInt(long n)` from the running quotient un. */
  lemma FillStep(n: int, i: nat, un: int)
    requires i < |LongSlotsAsWritten(n)|
    requires n >= 0 ==> un == n / Pow10(i)
    requires n < 0 ==> un == n
    ensures Mod(un, 10) == LongSlotsAsWritten(n)[i]
    ensures n >= 0 ==> Quot(un, 10) == n / Pow10(i + 1)
  {
    if n >= 0 {
      FillDigit(n, i, un);
    } else {
      assert i == 0;
    }
  }

  /** Slot i of a non-negative n is the running quotient's last digit. */
  lemma FillDigit(n: nat, i: nat, un: int)
    requires i < |LongSlotsAsWritten(n)| && un == n / Pow10(i)
    ensures Mod(un, 10) == LongSlotsAsWritten(n)[i] && Quot(un, 10) == n / Pow10(i + 1)
  {
    var k := CountFrom(n, 1);
    assert LongSlotsAsWritten(n) == Slots(n, k);
    assert LongSlotsAsWritten(n)[i] == un % 10;
    FillQuot(n, i, un);
  }

  /** The running quotient is non-negative, so its last digit and the next quotient are plain `%` and `/`. */
  lemma FillQuot(n: nat, i: nat, un: int)
    requires un == n / Pow10(i)
    ensures Mod(un, 10) == un % 10 && Quot(un, 10) == n / Pow10(i + 1)
  {
    DivModPow10Step(n, i);
    NonNegQuotient(n, Pow10(i));
    NonNegDigit(un);
  }

  /** A non-negative number divided by a positive one is non-negative. */
  lemma NonNegQuotient(n: nat, p: int)
    requires p >= 1
    ensures n / p >= 0
  {
  }

  /** On a non-negative number `mod` and truncating division by 10 are Dafny's `%` and `/`. */
  lemma NonNegDigit(x: int)
    requires x >= 0
    ensures Mod(x, 10) == x % 10 && Quot(x, 10) == x / 10
  {
  }

  class BigInt {
    var val: array<int>
    var length: nat

    ghost predicate Valid()
      reads this
    {
      length <= val.Length
    }

    /** The digits in use, least significant first. */
    function Digits(): seq<int>
      reads this, val
      requires Valid()
    {
      val[..length]
    }

    /** `BigInt()`: no buffer, length 0. */
    constructor()
      ensures Valid() && Digits() == []
    {
      val := new int[0];
      length := 0;
    }

    /** `BigInt(long n)`; the counter t is an `int`, so n stays at most 10^9. */
    constructor FromLong(n: int)
      requires n <= 1_000_000_000
      ensures Valid() && Digits() == LongSlotsAsWritten(n)
    {
      var buf := StrictSlots(n);
      val := buf;
      length := buf.Length;
    }

    /** `BigInt(string s)`: as many slots as characters, slot i holding
        s[|s| - 1 - i] - '0'; no sign, no trim. */
    constructor FromString(s: string)
      requires AllDigits(s)
      ensures Valid() && Digits() == CharSlots(s)
    {
      var len := 0;
      while len < |s| && s[len] != '\0'
        invariant 0 <= len <= |s|
      {
        len := len + 1;
      }
      assert forall k :: 0 <= k < |s| ==> s[k] != '\0';
      assert len == |s|;
      var buf := new int[len];
      var i := 0;
      while i < len
        invariant 0 <= i <= len == buf.Length == |s|
        invariant buf[..i] == CharSlots(s)[..i]
      {
        buf[i] := CharValue(s[len - 1 - i]);
        assert buf[..i + 1] == buf[..i] + [buf[i]];
        i := i + 1;
      }
      val := buf;
      length := len;
    }

    /** `add(BigInt& a, BigInt& b)`: the carry pass over the common slots,
        then over the tail of the longer operand, then the final carry in
        slot max(|a|, |b|) only when it is non-zero. The operands are
        references, so this object must be neither of them. */
    method Add(a: BigInt, b: BigInt)
      requires a.Valid() && b.Valid() && a != this && b != this
      modifies this
      ensures Valid() && fresh(val)
      ensures Digits() == SumSlots(a.Digits(), b.Digits())
    {
      ghost var A, B := a.Digits(), b.Digits();
      var len := Max(a.length, b.length) + 1;
      var buf := new int[len];
      var i, carry := SumPrefix(buf, a, b);
      if i != a.length || i != b.length {
        var t := if i != a.length then a else b;
        assert t.Digits() == A || t.Digits() == B;
        i, carry := SumTail(buf, t, i, carry, A, B);
      }
      assert i == len - 1 && buf[..i] == Pass(A, B, i).digits && carry == Pass(A, B, i).carry;
      if carry == 0 {
        len := len - 1;
      } else {
        buf[i] := carry;
        assert buf[..len] == Pass(A, B, i).digits + [carry];
      }
      val := buf;
      length := len;
    }

    /** `add(BigInt& a, long b)`: b goes through `BigInt(long)` first. */
    method AddLong(a: BigInt, n: int)
      requires a.Valid() && a != this && n <= 1_000_000_000
      modifies this
      ensures Valid() && fresh(val)
      ensures Digits() == SumSlots(a.Digits(), LongSlotsAsWritten(n))
    {
      var b := new BigInt.FromLong(n);
      Add(a, b);
    }

    /** `add(BigInt& a, string b)`: b goes through `BigInt(string)` first. */
    method AddText(a: BigInt, s: string)
      requires a.Valid() && a != this && AllDigits(s)
      modifies this
      ensures Valid() && fresh(val)
      ensures Digits() == SumSlots(a.Digits(), CharSlots(s))
    {
      var b := new BigInt.FromString(s);
      Add(a, b);
    }
  }

  /** The first slots of `add`, where both operands have digits. */
  method SumPrefix(buf: array<int>, a: BigInt, b: BigInt) returns (i: nat, carry: int)
    requires a.Valid() && b.Valid() && buf != a.val && buf != b.val
    requires buf.Length == Max(a.length, b.length) + 1
    modifies buf
    ensures i == Min(a.length, b.length)
    ensures buf[..i] == Pass(a.Digits(), b.Digits(), i).digits && carry == Pass(a.Digits(), b.Digits(), i).carry
  {
    ghost var A, B := a.Digits(), b.Digits();
    var l := Min(a.length, b.length);
    carry := 0;
    i := 0;
    while i < l
      invariant 0 <= i <= l
      invariant buf[..i] == Pass(A, B, i).digits && carry == Pass(A, B, i).carry
    {
      var x := a.val[i] + b.val[i] + carry;
      carry := Quot(x, 10);
      buf[i] := Mod(x, 10);
      assert buf[..i + 1] == buf[..i] + [buf[i]];
      i := i + 1;
    }
  }

  /** The final slots of `add`, written from the longer operand t alone. */
  method SumTail(buf: array<int>, t: BigInt, i0: nat, carry0: int, ghost A: seq<int>, ghost B: seq<int>) returns (i: nat, carry: int)
    requires t.Valid() && buf != t.val && buf.Length == Max(|A|, |B|) + 1
    requires Min(|A|, |B|) == i0 < t.length == Max(|A|, |B|)
    requires t.Digits() == A || t.Digits() == B
    requires buf[..i0] == Pass(A, B, i0).digits && carry0 == Pass(A, B, i0).carry
    modifies buf
    ensures i == Max(|A|, |B|) && buf[..i] == Pass(A, B, i).digits && carry == Pass(A, B, i).carry
  {
    carry := carry0;
    i := i0;
    while i < buf.Length - 1
      invariant i0 <= i <= buf.Length - 1
      invariant buf[..i] == Pass(A, B, i).digits && carry == Pass(A, B, i).carry
    {
      assert At(A, i) + At(B, i) == t.val[i];
      var x := t.val[i] + carry;
      carry := Quot(x, 10);
      buf[i] := Mod(x, 10);
      assert buf[..i + 1] == buf[..i] + [buf[i]];
      i := i + 1;
    }
  }

  /** What `add` leaves: the carry pass over max(|a|, |b|) slots, and the
      final carry in one more slot when it is not zero. */
  function SumSlots(a: seq<int>, b: seq<int>): seq<int>
  {
    var p := Pass(a, b, Max(|a|, |b|));
    if p.carry == 0 then p.digits else p.digits + [p.carry]
  }

  /** On digits 0..9 `add` gives digits 0..9 of value a + b, in
      max(|a|, |b|) slots, or one more exactly when the sum reaches
      10^max(|a|, |b|). */
  lemma SumSlotsCorrect(a: seq<int>, b: seq<int>)
    requires NonNeg(a) && NonNeg(b)
    ensures NonNeg(SumSlots(a, b)) && Value(SumSlots(a, b)) == Value(a) + Value(b)
    ensures var n := Max(|a|, |b|);
            |SumSlots(a, b)| == if Value(a) + Value(b) >= Pow10(n) then n + 1 else n
  {
    var n := Max(|a|, |b|);
    var p := Pass(a, b, n);
    PassValue(a, b, n);
    PassBounds(a, b, n);
    LowBeyond(a, n);
    LowBeyond(b, n);
    NonNegBounds(p.digits);
    FinalCarry(Value(p.digits), p.carry, Pow10(n), Value(a) + Value(b));
    if p.carry != 0 {
      ValueAppend(p.digits, p.carry);
    }
  }

  /** A final carry of 0 or 1 above slots worth less than P is set exactly when the sum reaches P. */
  lemma FinalCarry(v: int, c: int, p: int, s: int)
    requires 0 <= v < p && 0 <= c <= 1 && v + c * p == s
    ensures c != 0 <==> s >= p
  {
  }

  /** On trimmed digits 0..9 `add` gives trimmed digits 0..9 of the sum,
      which are its only such digits (`Digits.MagnitudeUnique`). */
  lemma SumSlotsCanonical(a: seq<int>, b: seq<int>)
    requires IsMagnitude(a) && IsMagnitude(b)
    ensures IsMagnitude(SumSlots(a, b)) && Value(SumSlots(a, b)) == Value(a) + Value(b)
  {
    var r, n, v := SumSlots(a, b), Max(|a|, |b|), Value(a) + Value(b);
    SumSlotsCorrect(a, b);
    if |r| > 0 {
      if |r| == n {
        SumAtLeastLonger(a, b);
      }
      TopOfSum(r, v);
    }
  }

  /** Magnitudes add up to at least the lower bound of the longer one. */
  lemma SumAtLeastLonger(a: seq<int>, b: seq<int>)
    requires IsMagnitude(a) && IsMagnitude(b) && Max(|a|, |b|) > 0
    ensures Pow10(Max(|a|, |b|) - 1) <= Value(a) + Value(b)
  {
    NonNegBounds(a);
    NonNegBounds(b);
    if |a| >= |b| {
      MagnitudeLowerBound(a);
    } else {
      MagnitudeLowerBound(b);
    }
  }

  /** Digits 0..9 whose value reaches the place value of the top slot end in a non-zero slot. */
  lemma TopOfSum(r: seq<int>, v: int)
    requires NonNeg(r) && |r| > 0 && Value(r) == v && Pow10(|r| - 1) <= v
    ensures r[|r| - 1] != 0
  {
    var k := |r| - 1;
    assert r == r[..k] + [r[k]];
    ValueAppend(r[..k], r[k]);
    NonNegBounds(r[..k]);
    TopNonZero(Value(r[..k]), r[k], Pow10(k), v);
  }

  /** A top slot d at place value p over a lower part below p: a total of
      at least p needs d != 0. */
  lemma TopNonZero(low: int, d: int, p: int, v: int)
    requires low < p <= v && v == low + d * p
    ensures d != 0
  {
  }
}
