/** What the drafts ops.cpp and diff.cpp share line for line: the
    constructors from a long and from a decimal string, the trim loop
    without a lower bound, and the two-pass signed addition (ops.cpp
    `operator+`, diff.cpp `add`): the carry pass of Carry, the trim, the
    renormalisation towards the sign of the top slot, and a final drop of
    one zero top slot, which ops.cpp guards with `length > 1` and diff.cpp
    does not. */
module SignedDrafts {
  import opened Arith
  import opened Digits
  import opened Carry
  import opened Decimal

  // ---------------------------------------------------------------- construction

  /** `BigInt(long n)`: count the digits of |n| with t = 10, 100, ... while
      t <= |n| (at least one), then slot i receives (|n| / 10^i) % 10 times
      the sign. Zero keeps its single 0 slot. The counter t is an `int`, so
      the count is only defined for |n| < 10^9. */
  method LongSlots(n: int) returns (buf: array<int>)
    requires -1_000_000_000 < n < 1_000_000_000
    ensures fresh(buf)
    ensures buf[..] == if n == 0 then [0] else CanonicalOf(n)
  {
    var sign := 1;
    var un := n;
    if n < 0 {
      sign := -1;
      un := un * sign;
    }
    ghost var m: nat := un;
    var length := 1;
    var t := 10;
    while t <= un
      invariant length >= 1 && t == Pow10(length)
      invariant length == 1 || Pow10(length - 1) <= m
      decreases un - t
    {
      t := t * 10;
      length := length + 1;
    }
    buf := new int[length];
    var i := 0;
    while i < length
      invariant 0 <= i <= length == buf.Length
      invariant un == m / Pow10(i)
      invariant buf[..i] == Scale(Slots(m, length), sign)[..i]
    {
      DivModPow10Step(m, i);
      buf[i] := un % 10 * sign;
      un := un / 10;
      assert buf[..i + 1] == buf[..i] + [buf[i]];
      i := i + 1;
    }
    assert buf[..] == Scale(Slots(m, length), Sign(n));
    SignedSlots(n, m, length);
  }

  /** The slots of |n| times the sign of n: the canonical digits of n, except
      that zero is one 0 slot. */
  lemma SignedSlots(n: int, m: nat, k: nat)
    requires m == Abs(n) && k >= 1 && m < Pow10(k) && (k == 1 || Pow10(k - 1) <= m)
    ensures Scale(Slots(m, k), Sign(n)) == if n == 0 then [0] else CanonicalOf(n)
  {
    if m == 0 {
      assert Slots(m, k) == [0];
    } else {
      SlotsAreDigits(m, k);
      CanonicalOfShape(n);
    }
  }

  /** `BigInt(string s)`: a leading '-' sets the sign; the characters are
      read from the right into slots 0, 1, ..., each minus '0' times the
      sign, until the '-' is met (which gives up its slot); then the trim
      without a lower bound. The source demands a well-formed numeral whose
      value is not zero, or the trim runs below slot 0. */
  method TextSlots(s: string) returns (buf: array<int>, length: nat)
    requires IsDecimal(s) && DecimalValue(s) != 0
    ensures fresh(buf) && length <= buf.Length && buf[..length] == ParseDigits(s)
  {
    var sign := 1;
    if s[0] == '-' {
      sign := -1;
    }
    buf, length := ReadBackward(s, sign);
    ReadSlots(s, buf[..length]);
    ParseValue(s);
    length := TrimFrom(buf, length);
  }

  /** The loop of `BigInt(string)`: characters from the right, each times the
      sign, until a '-' (one slot fewer) or the start of the string. */
  method ReadBackward(s: string, sign: int) returns (buf: array<int>, length: nat)
    requires IsDecimal(s) && sign == SignOfText(s)
    ensures fresh(buf) && buf.Length == |s| && length == |Body(s)|
    ensures forall k :: 0 <= k < length ==> buf[k] == CharValue(s[|s| - 1 - k]) * sign
  {
    length := |s|;
    buf := new int[length];
    var i := |s| - 1;
    while i >= 0
      invariant -1 <= i < |s| && length == |s| == buf.Length
      invariant forall k :: i < k < |s| ==> s[k] != '-'
      invariant forall k :: 0 <= k < |s| - 1 - i ==> buf[k] == CharValue(s[|s| - 1 - k]) * sign
    {
      if i > 0 {
        DigitAfterFirst(s, i);
      }
      if s[i] == '-' {
        length := length - 1;
        break;
      }
      buf[length - 1 - i] := CharValue(s[i]) * sign;
      i := i - 1;
    }
  }

  /** Slots read from the right of the body, times the sign, are the parsed slots before the trim. */
  lemma ReadSlots(s: string, slots: seq<int>)
    requires |slots| == |Body(s)|
    requires forall k :: 0 <= k < |slots| ==> slots[k] == CharValue(s[|s| - 1 - k]) * SignOfText(s)
    ensures slots == Scale(CharSlots(Body(s)), SignOfText(s))
  {
    forall k | 0 <= k < |slots|
      ensures slots[k] == Scale(CharSlots(Body(s)), SignOfText(s))[k]
    {
      ParsedSlot(s, k);
    }
  }

  /** In a well-formed numeral every character after the first is a digit. */
  lemma DigitAfterFirst(s: string, i: nat)
    requires IsDecimal(s) && 0 < i < |s|
    ensures IsDigitChar(s[i])
  {
    if s[0] == '-' {
      assert s[1..][i - 1] == s[i];
    }
  }

  /** The drafts' `while (val[length - 1] == 0) --length;`: it has no lower
      bound, so some slot below n must be non-zero. */
  method TrimFrom(buf: array<int>, n: nat) returns (length: nat)
    requires n <= buf.Length && TrimSeq(buf[..n]) != []
    ensures length == |TrimSeq(buf[..n])| && buf[..length] == TrimSeq(buf[..n])
  {
    length := n;
    while buf[length - 1] == 0
      invariant length <= n && TrimSeq(buf[..length]) == TrimSeq(buf[..n])
      decreases length
    {
      assert buf[..length][..length - 1] == buf[..length - 1];
      length := length - 1;
    }
  }

  // ---------------------------------------------------------------- two-pass addition

  /** The trim after the first pass stops inside the buffer: some slot is non-zero. */
  predicate NonZeroPass(a: seq<int>, b: seq<int>)
  {
    TrimSeq(CarrySeq(a, b)) != []
  }

  /** A first pass over fewer than two slots ran over empty operands and left no non-zero slot. */
  lemma PassLength(a: seq<int>, b: seq<int>)
    ensures |CarrySeq(a, b)| < 2 ==> !NonZeroPass(a, b)
  {
    if |CarrySeq(a, b)| < 2 {
      assert Pass(a, b, 1) == PassState([0], 0);
      assert TrimSeq([0]) == [];
    }
  }

  /** The slots in use after the first pass and its trim. */
  function UsedSlots(a: seq<int>, b: seq<int>): (len: nat)
    requires NonZeroPass(a, b)
    ensures 1 <= len <= |CarrySeq(a, b)|
  {
    |TrimSeq(CarrySeq(a, b))|
  }

  /** The slot the renormalisation touches last: len - 1, or slot 1 (the
      zero slot above) when one slot is in use. */
  function LastSlot(len: nat): nat
    requires len >= 1
  {
    if len == 1 then 1 else len - 1
  }

  /** The buffer after the first pass, the trim and the renormalisation. */
  function Renormalized(a: seq<int>, b: seq<int>): (r: seq<int>)
    requires NonZeroPass(a, b)
    ensures |r| == |CarrySeq(a, b)|
  {
    PassLength(a, b);
    var c := CarrySeq(a, b);
    var len := UsedSlots(a, b);
    Renormed(c, LastSlot(len), Sign(c[len - 1]))
  }

  /** The part the drafts share: the first pass over a fresh buffer of
      max(|a|, |b|) + 1 slots, the trim, and the renormalisation. */
  method TwoPass(a: seq<int>, b: seq<int>) returns (buf: array<int>, length: nat, top: nat)
    requires NonZeroPass(a, b)
    ensures fresh(buf) && buf[..] == Renormalized(a, b)
    ensures length == UsedSlots(a, b) && top == LastSlot(length) && top < buf.Length
  {
    buf := CarryPass(a, b);
    assert buf[..buf.Length] == buf[..];
    length := TrimFrom(buf, buf.Length);
    PassLength(a, b);
    top := Renormalize(buf, length);
  }

  /** For slots in (-10, 10) and a non-zero sum, the first pass leaves a
      non-zero slot; the renormalised slots up to the last one touched hold
      the sum, each a digit of the sum's sign; and above a single slot the
      last slot touched ends at 0. */
  lemma RenormalizedFacts(a: seq<int>, b: seq<int>)
    requires Bounded(a) && Bounded(b) && Value(a) + Value(b) != 0
    ensures NonZeroPass(a, b)
    ensures var r, top := Renormalized(a, b), LastSlot(UsedSlots(a, b));
            && Value(r[..top + 1]) == Value(a) + Value(b)
            && SignedBy(r[..top + 1], Sign(Value(a) + Value(b)))
            && (UsedSlots(a, b) == 1 ==> r[1] == 0)
  {
    TrimmedPass(a, b);
    RenormTrimmed(CarrySeq(a, b), UsedSlots(a, b), Value(a) + Value(b));
  }

  /** The renormalisation of slots c whose first len are in use, with a
      non-zero top slot of the sign of their value v. */
  lemma RenormTrimmed(c: seq<int>, len: nat, v: int)
    requires Bounded(c) && 1 <= len <= |c| && c[len - 1] != 0 && (c[len - 1] < 0 <==> v < 0)
    requires len == 1 ==> 2 <= |c| && c[1] == 0
    requires Value(c[..LastSlot(len) + 1]) == v
    ensures var top := LastSlot(len);
            var r := Renormed(c, top, Sign(c[len - 1]));
            && Value(r[..top + 1]) == v
            && SignedBy(r[..top + 1], Sign(v))
            && (len == 1 ==> r[1] == 0)
  {
    var top, sign := LastSlot(len), Sign(c[len - 1]);
    RenormedFacts(c, top, sign);
    if len == 1 {
      RenormPassDigits(c, sign, 1);
    }
  }

  /** What the first pass and its trim leave for the renormalisation: a
      non-zero top slot len - 1 of the sum's sign, the slots up to the last
      one to be touched holding the sum, and zero above a single slot. */
  lemma TrimmedPass(a: seq<int>, b: seq<int>)
    requires Bounded(a) && Bounded(b) && Value(a) + Value(b) != 0
    ensures NonZeroPass(a, b)
    ensures var c, len := CarrySeq(a, b), UsedSlots(a, b);
            && Bounded(c) && c[len - 1] != 0 && Sign(c[len - 1]) == Sign(Value(a) + Value(b))
            && (c[len - 1] < 0 <==> Value(a) + Value(b) < 0)
            && (len == 1 ==> 2 <= |c| && c[1] == 0)
            && Value(c[..LastSlot(len) + 1]) == Value(a) + Value(b)
  {
    var c := CarrySeq(a, b);
    CarryValue(a, b);
    TrimValue(c);
    assert TrimSeq(c) != [];
    PassLength(a, b);
    TrimmedTop(c);
    if |TrimSeq(c)| == 1 {
      SingleSlotUsed(c);
    }
  }

  /** The top slot kept by the trim of bounded slots is non-zero and has the sign of their value. */
  lemma TrimmedTop(c: seq<int>)
    requires Bounded(c) && TrimSeq(c) != []
    ensures var len := |TrimSeq(c)|;
            && c[len - 1] != 0 && Value(c[..len]) == Value(c)
            && (c[len - 1] > 0 ==> Value(c) > 0) && (c[len - 1] < 0 ==> Value(c) < 0)
  {
    var t := TrimSeq(c);
    TrimValue(c);
    assert Bounded(t);
    TopDigitSign(t);
  }

  /** When the trim keeps one slot of at least two, slot 1 is zero and the two low slots hold the value. */
  lemma SingleSlotUsed(c: seq<int>)
    requires |TrimSeq(c)| == 1 && 2 <= |c|
    ensures c[1] == 0 && Value(c[..2]) == Value(TrimSeq(c))
  {
    var t := TrimSeq(c);
    assert c[..2] == t + [c[1]];
    ValueAppend(t, 0);
  }

  // ---------------------------------------------------------------- the final drop

  /** ops.cpp `operator+`: one zero top slot is dropped, and only when more
      than one slot is in use. */
  function GuardedSum(a: seq<int>, b: seq<int>): seq<int>
    requires NonZeroPass(a, b)
  {
    var r, len := Renormalized(a, b), UsedSlots(a, b);
    if r[LastSlot(len)] == 0 && len > 1 then r[..len - 1] else r[..len]
  }

  /** diff.cpp `add`: one zero top slot is dropped whatever the length. */
  function UnguardedSum(a: seq<int>, b: seq<int>): seq<int>
    requires NonZeroPass(a, b)
  {
    var r, len := Renormalized(a, b), UsedSlots(a, b);
    if r[LastSlot(len)] == 0 then r[..len - 1] else r[..len]
  }

  /** ops.cpp's sum of operands with slots in (-10, 10) and a non-zero sum:
      not empty, of value a + b, and every slot a digit of the sum's sign. */
  lemma GuardedSumCorrect(a: seq<int>, b: seq<int>)
    requires Bounded(a) && Bounded(b) && Value(a) + Value(b) != 0
    ensures NonZeroPass(a, b) && GuardedSum(a, b) != []
    ensures Value(GuardedSum(a, b)) == Value(a) + Value(b)
    ensures SignedBy(GuardedSum(a, b), Sign(Value(a) + Value(b)))
  {
    RenormalizedFacts(a, b);
    GuardedDrop(Renormalized(a, b), UsedSlots(a, b), Value(a) + Value(b), Sign(Value(a) + Value(b)));
  }

  /** The guarded drop keeps the value and the signs of the renormalised
      slots r up to the last one touched, and leaves at least one slot. */
  lemma GuardedDrop(r: seq<int>, len: nat, v: int, sign: int)
    requires 1 <= len && LastSlot(len) < |r|
    requires Value(r[..LastSlot(len) + 1]) == v && SignedBy(r[..LastSlot(len) + 1], sign)
    requires len == 1 ==> r[1] == 0
    ensures var g := if r[LastSlot(len)] == 0 && len > 1 then r[..len - 1] else r[..len];
            g != [] && Value(g) == v && SignedBy(g, sign)
  {
    var top := LastSlot(len);
    var w := r[..top + 1];
    if len == 1 {
      assert w == r[..1] + [0];
      ValueAppend(r[..1], 0);
    } else if r[top] == 0 {
      assert w == r[..len - 1] + [0];
      ValueAppend(r[..len - 1], 0);
    }
  }

  /** diff.cpp's sum agrees with ops.cpp's when the first pass leaves more
      than one slot, and is empty, that is zero, when it leaves one. */
  lemma UnguardedSumCases(a: seq<int>, b: seq<int>)
    requires Bounded(a) && Bounded(b) && Value(a) + Value(b) != 0
    ensures NonZeroPass(a, b)
    ensures UsedSlots(a, b) > 1 ==> UnguardedSum(a, b) == GuardedSum(a, b)
    ensures UsedSlots(a, b) == 1 ==> UnguardedSum(a, b) == [] && Value(UnguardedSum(a, b)) != Value(a) + Value(b)
  {
    RenormalizedFacts(a, b);
  }

  /** 2 + 3: the first pass leaves the single slot 5, which diff.cpp loses. */
  lemma TwoPlusThree()
    ensures NonZeroPass([2], [3])
    ensures UnguardedSum([2], [3]) == [] && GuardedSum([2], [3]) == [5]
  {
    assert Pass([2], [3], 1) == PassState([5], 0);
    assert Pass([2], [3], 2) == PassState([5, 0], 0);
    assert TrimSeq([5, 0]) == [5];
    assert RenormPass([5, 0], 1, 1) == PassState([5], 1);
  }

  /** 100 + (-99): the renormalisation leaves [1, 0, 0]; dropping one zero
      slot leaves [1, 0], which `display` writes as "01". */
  lemma LeadingZero()
    ensures NonZeroPass([0, 0, 1], [-9, -9])
    ensures GuardedSum([0, 0, 1], [-9, -9]) == [1, 0] && !Trimmed([1, 0])
    ensures Render([1, 0]) == "01"
  {
    var c := [-9, -9, 1, 0];
    LeadingPass();
    assert TrimSeq(c) == TrimSeq([-9, -9, 1]) == [-9, -9, 1];
    LeadingRenorm();
    assert Tail([1, 0], 1, 1) == "1";
  }

  /** The first pass of 100 + (-99) leaves [-9, -9, 1, 0]. */
  lemma LeadingPass()
    ensures CarrySeq([0, 0, 1], [-9, -9]) == [-9, -9, 1, 0]
  {
    var a, b := [0, 0, 1], [-9, -9];
    assert Pass(a, b, 1) == PassState([-9], 0);
    assert Pass(a, b, 2) == PassState([-9, -9], 0);
    assert Pass(a, b, 3) == PassState([-9, -9, 1], 0);
  }

  /** Renormalising [-9, -9, 1, 0] up to slot 2 with the sign 1 leaves [1, 0, 0, 0]. */
  lemma LeadingRenorm()
    ensures Renormed([-9, -9, 1, 0], 2, 1) == [1, 0, 0, 0]
  {
    var c := [-9, -9, 1, 0];
    assert RenormPass(c, 1, 1) == PassState([1], 0);
    assert RenormPass(c, 1, 2) == PassState([1, 0], 0);
  }

  /** ops.cpp `operator+` as evidently intended: the one-slot drop replaced
      by a full trim. */
  function TrimmedSum(a: seq<int>, b: seq<int>): seq<int>
    requires NonZeroPass(a, b)
  {
    TrimSeq(GuardedSum(a, b))
  }

  /** With a full trim the two-pass sum is the canonical representation of a + b. */
  lemma TrimmedSumCanonical(a: seq<int>, b: seq<int>)
    requires Bounded(a) && Bounded(b) && Value(a) + Value(b) != 0
    ensures NonZeroPass(a, b) && TrimmedSum(a, b) == CanonicalOf(Value(a) + Value(b))
  {
    GuardedSumCorrect(a, b);
    TrimCanonical(GuardedSum(a, b));
  }
}
