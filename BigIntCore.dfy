/** BigInt.cpp: the finished BigInt. An object owns a buffer `val` of
    which the first `len` slots are the little-endian digits; every helper
    and operator below fills buffers slot by slot as the C++ code does, and
    is proved against the sequence functions of Digits, Carry, Product,
    Magnitude, LongDivision and Decimal. */
module BigIntCore {
  import opened Arith
  import opened Digits
  import opened Carry
  import opened Product
  import opened Magnitude
  import opened LongDivision
  import opened Decimal
  import opened Addition

  class BigInt {
    var val: array<int>
    var len: nat

    ghost predicate Valid()
      reads this
    {
      len <= val.Length
    }

    /** The digits in use, least significant first. */
    function Digits(): seq<int>
      reads this, val
      requires Valid()
    {
      val[..len]
    }

    /** `BigInt()`: zero, the empty digit sequence. */
    constructor()
      ensures Valid() && fresh(val) && Digits() == []
    {
      val := new int[0];
      len := 0;
    }

    /** `reallocate(n)`: a fresh zero-filled buffer of n slots, all in use. */
    method Reallocate(n: nat)
      modifies this
      ensures Valid() && fresh(val) && val.Length == len == n && Digits() == seq(n, _ => 0)
    {
      val := new int[n](_ => 0);
      len := n;
    }

    /** The copy constructor: a fresh buffer holding the same digits. */
    constructor Copy(other: BigInt)
      requires other.Valid()
      ensures Valid() && fresh(val) && Digits() == other.Digits()
    {
      var buf := new int[other.len];
      var i := 0;
      while i < other.len
        invariant 0 <= i <= other.len && buf[..i] == other.val[..i]
      {
        buf[i] := other.val[i];
        assert buf[..i + 1] == buf[..i] + [other.val[i]];
        i := i + 1;
      }
      assert buf[..] == buf[..other.len];
      val := buf;
      len := other.len;
    }

    /** `trim`: drops zero slots from the top by decrementing len only. */
    method Trim()
      requires Valid()
      modifies this
      ensures Valid() && val == old(val) && len <= old(len)
      ensures Digits() == TrimSeq(old(Digits()))
    {
      while len > 0 && val[len - 1] == 0
        invariant Valid() && val == old(val) && len <= old(len)
        invariant TrimSeq(Digits()) == TrimSeq(old(Digits()))
      {
        assert val[..len - 1] == Digits()[..len - 1];
        len := len - 1;
      }
      TrimIdempotent(Digits());
    }

    /** `compareAbs`: a longer operand is larger; otherwise the first slot
        from the top whose absolute values differ decides. */
    static method CompareAbs(a: BigInt, b: BigInt) returns (c: int)
      requires a.Valid() && b.Valid()
      ensures c == CmpAbs(a.Digits(), b.Digits())
    {
      if a.len != b.len {
        return if a.len < b.len then -1 else 1;
      }
      ghost var A, B := a.Digits(), b.Digits();
      var i := a.len;
      while i > 0
        invariant 0 <= i <= a.len
        invariant CmpFrom(A, B, a.len) == CmpFrom(A, B, i)
      {
        i := i - 1;
        var da := Abs(a.val[i]);
        var db := Abs(b.val[i]);
        if da != db {
          return if da < db then -1 else 1;
        }
      }
      return 0;
    }

    /** `absSub`: |a[i]| minus the borrow minus |b[i]| slot by slot, then `trim`. */
    static method AbsSub(a: BigInt, b: BigInt) returns (diff: BigInt)
      requires a.Valid() && b.Valid()
      ensures fresh(diff) && fresh(diff.val) && diff.Valid()
      ensures diff.Digits() == AbsSubSeq(a.Digits(), b.Digits())
    {
      ghost var A, B := a.Digits(), b.Digits();
      diff := new BigInt();
      diff.Reallocate(a.len);
      var borrow := 0;
      var i := 0;
      while i < a.len
        invariant 0 <= i <= a.len && diff.Valid() && diff.len == a.len && fresh(diff.val)
        invariant diff.val[..i] == SubPass(A, B, i).digits && borrow == SubPass(A, B, i).carry
      {
        var av := Abs(a.val[i]) - borrow;
        var bv := if i < b.len then Abs(b.val[i]) else 0;
        var d := av - bv;
        if d < 0 {
          d := d + 10;
          borrow := 1;
        } else {
          borrow := 0;
        }
        diff.val[i] := d;
        assert diff.val[..i + 1] == diff.val[..i] + [d];
        i := i + 1;
      }
      assert diff.Digits() == diff.val[..i];
      diff.Trim();
    }

    /** `mulDigit`: zero for d == 0 or a == 0; otherwise |a[i]| * d plus the
        carry slot by slot, the last carry in slot a.len when non-zero, then `trim`. */
    static method MulDigit(a: BigInt, d: int) returns (p: BigInt)
      requires a.Valid()
      ensures fresh(p) && fresh(p.val) && p.Valid()
      ensures p.Digits() == MulDigitSeq(a.Digits(), d)
    {
      ghost var A := a.Digits();
      p := new BigInt();
      if d == 0 || a.len == 0 {
        return;
      }
      p.Reallocate(a.len + 1);
      var carry := MulPassInto(p.val, a, d);
      if carry != 0 {
        p.val[a.len] := carry;
      }
      assert p.Digits() == p.val[..a.len] + [carry];
      p.Trim();
    }

    /** The loop of `mulDigit`: slot i receives |a[i]| * d plus the carry, mod 10. */
    static method MulPassInto(buf: array<int>, a: BigInt, d: int) returns (carry: int)
      requires a.Valid() && buf.Length == a.len + 1 && buf != a.val
      modifies buf
      ensures buf[..a.len] == MulPass(a.Digits(), d, a.len).digits && carry == MulPass(a.Digits(), d, a.len).carry
      ensures buf[a.len] == old(buf[a.len])
    {
      ghost var A := a.Digits();
      carry := 0;
      var i := 0;
      while i < a.len
        invariant 0 <= i <= a.len && buf[a.len] == old(buf[a.len])
        invariant buf[..i] == MulPass(A, d, i).digits && carry == MulPass(A, d, i).carry
      {
        var tmp := Abs(a.val[i]) * d + carry;
        assert MulPass(A, d, i + 1) == PassState(MulPass(A, d, i).digits + [Mod(tmp, 10)], Quot(tmp, 10));
        carry := Quot(tmp, 10);
        buf[i] := Mod(tmp, 10);
        assert buf[..i + 1] == buf[..i] + [buf[i]];
        i := i + 1;
      }
    }

    /** `pushFrontDigit`: r becomes r * 10 + d in a new buffer one slot longer; zero stays zero when d == 0. */
    static method PushFrontDigit(r: BigInt, d: int)
      requires r.Valid()
      modifies r
      ensures r.Valid() && (r.val == old(r.val) || fresh(r.val))
      ensures r.Digits() == PushFront(old(r.Digits()), d)
    {
      if r.len == 0 && d == 0 {
        return;
      }
      ghost var R := r.Digits();
      var buf := new int[r.len + 1];
      buf[0] := d;
      var i := 0;
      while i < r.len
        invariant 0 <= i <= r.len && r.Valid() && buf.Length == r.len + 1 && r.val == old(r.val) && r.len == old(r.len)
        invariant r.Digits() == R && buf[0] == d && buf[1..i + 1] == R[..i]
      {
        buf[i + 1] := r.val[i];
        assert buf[1..i + 2] == buf[1..i + 1] + [r.val[i]];
        i := i + 1;
      }
      assert buf[..] == [d] + R;
      r.val := buf;
      r.len := r.len + 1;
      assert r.Digits() == buf[..];
    }

    /** The positive copies of `divmod`: a copy with `std::abs` applied to every slot. */
    static method AbsCopy(x: BigInt) returns (y: BigInt)
      requires x.Valid()
      ensures fresh(y) && fresh(y.val) && y.Valid()
      ensures y.Digits() == AbsDigits(x.Digits())
    {
      ghost var X := x.Digits();
      y := new BigInt.Copy(x);
      var i := 0;
      while i < y.len
        invariant 0 <= i <= y.len && y.Valid() && fresh(y.val) && |X| == y.len
        invariant forall j :: 0 <= j < i ==> y.val[j] == Abs(X[j])
        invariant forall j :: i <= j < y.len ==> y.val[j] == X[j]
      {
        y.val[i] := Abs(y.val[i]);
        i := i + 1;
      }
      assert y.Digits() == AbsDigits(X);
    }

    /** The inner search of `divmod`: d from 9 down, stopping at the first
        whose `mulDigit(b, d)` is at most r, and 0 when none is. */
    static method SearchDigit(b: BigInt, r: BigInt) returns (d: int)
      requires b.Valid() && r.Valid()
      ensures d == Search(b.Digits(), r.Digits(), TopDigit)
    {
      ghost var B, R := b.Digits(), r.Digits();
      ghost var target := Search(B, R, TopDigit);
      d := TopDigit;
      while d > 0
        invariant 0 <= d <= TopDigit && b.Digits() == B && r.Digits() == R
        invariant SearchAt(B, R, d, target)
      {
        var prod := MulDigit(b, d);
        var c := CompareAbs(prod, r);
        SearchNext(B, R, d, target, prod.Digits(), c);
        if c <= 0 {
          break;
        }
        d := d - 1;
      }
      if d == 0 {
        assert Search(B, R, 0) == 0;
      }
    }

    /** The sign loops at the end of `divmod`: every slot multiplied by s. */
    static method ApplySign(x: BigInt, s: int)
      requires x.Valid() && (s == 1 || s == -1)
      modifies x.val
      ensures x.Valid() && x.Digits() == Scale(old(x.Digits()), s)
    {
      ghost var X := x.Digits();
      var i := 0;
      while i < x.len
        invariant 0 <= i <= x.len && |X| == x.len
        invariant forall j :: 0 <= j < i ==> x.val[j] == X[j] * s
        invariant forall j :: i <= j < x.len ==> x.val[j] == X[j]
      {
        x.val[i] := x.val[i] * s;
        i := i + 1;
      }
      assert x.Digits() == Scale(X, s);
    }

    /** `BigInt(long n)`: construction by assignment from a long. */
    constructor FromLong(n: int)
      requires LONG_MIN <= n <= LONG_MAX
      ensures Valid() && fresh(val) && Digits() == CanonicalOf(n)
    {
      val := new int[0];
      len := 0;
      new;
      AssignLong(n);
    }

    /** `operator=(long)`: count the digits of |n| with t = 10, 100, ... while
        t <= |n|, fill slot i with (|n| / 10^i) % 10 times the sign, and
        shorten the single slot of zero to the empty sequence. */
    method AssignLong(n: int)
      requires LONG_MIN <= n <= LONG_MAX
      modifies this
      ensures Valid() && fresh(val) && Digits() == CanonicalOf(n)
    {
      var sign := if n < 0 then -1 else 1;
      var un: nat := Abs(n);
      ghost var m := un;
      var digits: nat := 1;
      var t := 10;
      while t <= un
        invariant digits >= 1 && t == Pow10(digits)
        invariant digits == 1 || Pow10(digits - 1) <= m
        decreases un - t
      {
        digits := digits + 1;
        t := t * 10;
      }
      Reallocate(digits);
      var i := 0;
      while i < digits
        invariant 0 <= i <= digits && Valid() && fresh(val) && val.Length == len == digits
        invariant un == m / Pow10(i)
        invariant val[..i] == Scale(Slots(m, digits), sign)[..i]
      {
        DivModPow10Step(m, i);
        val[i] := (un % 10) * sign;
        un := un / 10;
        assert val[..i + 1] == val[..i] + [val[i]];
        i := i + 1;
      }
      assert Digits() == Scale(Slots(m, digits), sign);
      if digits == 1 && val[0] == 0 {
        len := 0;
      }
      LongDigits(n, m, digits);
    }

    /** `BigInt(const std::string&)`: construction by assignment from a string. */
    constructor FromString(s: string)
      ensures Valid() && fresh(val) && Digits() == ParseDigits(s)
    {
      val := new int[0];
      len := 0;
      new;
      AssignString(s);
    }

    /** `operator=(const std::string&)`: a leading '-' sets the sign, slot i
        receives (s[|s| - 1 - i] - '0') times the sign, then `trim`. No
        character is checked. */
    method AssignString(s: string)
      modifies this
      ensures Valid() && fresh(val) && Digits() == ParseDigits(s)
    {
      var sign := 1;
      var start := 0;
      if |s| > 0 && s[0] == '-' {
        sign := -1;
        start := 1;
      }
      var digits := |s| - start;
      Reallocate(digits);
      ghost var slots := Scale(CharSlots(Body(s)), sign);
      assert sign == SignOfText(s) && digits == |Body(s)|;
      var i := 0;
      while i < digits
        invariant 0 <= i <= digits && Valid() && fresh(val) && val.Length == len == digits
        invariant val[..i] == slots[..i]
      {
        ParsedSlot(s, i);
        val[i] := CharValue(s[|s| - 1 - i]) * sign;
        assert val[..i + 1] == val[..i] + [val[i]];
        i := i + 1;
      }
      assert Digits() == slots;
      Trim();
    }

    /** `print`: "0" when empty; otherwise the top slot as a long, then every
        lower slot from the top down multiplied by the top slot's sign. */
    method Print() returns (text: string)
      requires Valid()
      ensures text == Render(Digits())
    {
      if len == 0 {
        return "0";
      }
      ghost var ds := Digits();
      var sign := if val[len - 1] < 0 then -1 else 1;
      assert sign == TopSign(ds);
      text := IntText(val[len - 1]);
      var i := len - 1;
      while i > 0
        invariant 0 <= i < len == |ds| && ds == Digits()
        invariant text == Written(ds, sign, i)
      {
        assert val[i - 1] == ds[i - 1];
        assert Written(ds, sign, i - 1) == Written(ds, sign, i) + IntText(ds[i - 1] * sign);
        text := text + IntText(val[i - 1] * sign);
        i := i - 1;
      }
      WrittenRender(ds, sign);
    }

    /** One pass of the outer loop of `operator*`: slot i + j receives
        mod(buf[i + j] + bi * a[j] + carry, 10) with the truncated quotient
        carried, and the last carry is added into slot i + |a|. */
    static method AddRow(buf: array<int>, a: BigInt, bi: int, i: nat)
      requires a.Valid() && i + a.len < buf.Length && buf != a.val
      modifies buf
      ensures buf[..] == Row(old(buf[..]), a.Digits(), bi, i)
    {
      ghost var P, A := buf[..], a.Digits();
      var carry := 0;
      var j := 0;
      while j < a.len
        invariant 0 <= j <= a.len
        invariant buf[..] == RowPass(P, A, bi, i, j).digits
        invariant carry == RowPass(P, A, bi, i, j).carry
      {
        var idx := i + j;
        var tmp := buf[idx] + bi * a.val[j] + carry;
        carry := Quot(tmp, 10);
        buf[idx] := Mod(tmp, 10);
        j := j + 1;
      }
      buf[i + a.len] := buf[i + a.len] + carry;
    }

    /** `divmod(u, v, q, r)`: the `runtime_error` for an empty divisor
        (ok false); q = 0 and r = u when |u| < |v|; otherwise the long
        division of the positive copies, the two `trim`s and the sign loops. */
    static method DivMod(u: BigInt, v: BigInt) returns (ok: bool, q: BigInt, r: BigInt)
      requires u.Valid() && v.Valid()
      ensures fresh(q) && fresh(r) && q.Valid() && r.Valid()
      ensures DivModSeq(u.Digits(), v.Digits()) == if ok then Quotient(q.Digits(), r.Digits()) else DivisionByZero
    {
      if v.len == 0 {
        q := new BigInt();
        r := new BigInt();
        return false, q, r;
      }
      ok := true;
      q, r := DivideNonZero(u, v);
      assert DivModSeq(u.Digits(), v.Digits()) == Quotient(q.Digits(), r.Digits());
    }

    /** `divmod` past the zero-divisor check. */
    static method DivideNonZero(u: BigInt, v: BigInt) returns (q: BigInt, r: BigInt)
      requires u.Valid() && v.Valid() && v.len > 0
      ensures fresh(q) && fresh(r) && q.Valid() && r.Valid()
      ensures Answers(u.Digits(), v.Digits(), Quotient(q.Digits(), r.Digits()))
    {
      ghost var U, V := u.Digits(), v.Digits();
      var signU := if u.len > 0 && u.val[u.len - 1] < 0 then -1 else 1;
      var signV := if v.len > 0 && v.val[v.len - 1] < 0 then -1 else 1;
      var signQ := signU * signV;
      var signR := signU;
      assert signU == TopSign(U) && signV == TopSign(V);
      var a := AbsCopy(u);
      var b := AbsCopy(v);
      ghost var A, B := a.Digits(), b.Digits();
      var c := CompareAbs(a, b);
      if c < 0 {
        q := new BigInt.FromLong(0);
        r := new BigInt.Copy(u);
        DivModSmall(U, V, A, B);
        assert q.Digits() == [] && r.Digits() == U && u.Digits() == U && v.Digits() == V;
        return;
      }
      q, r := DivideMagnitudes(a, b, signQ, signR, U, V);
      assert u.Digits() == U && v.Digits() == V;
    }

    /** `divmod` from the allocation of q on: the loop over the positive
        copies, then the trims and the signs. */
    static method DivideMagnitudes(a: BigInt, b: BigInt, signQ: int, signR: int, ghost U: seq<int>, ghost V: seq<int>)
      returns (q: BigInt, r: BigInt)
      requires a.Valid() && b.Valid() && a.Digits() == AbsDigits(U) && b.Digits() == AbsDigits(V)
      requires |V| > 0 && CmpAbs(a.Digits(), b.Digits()) >= 0
      requires signQ == TopSign(U) * TopSign(V) && signR == TopSign(U)
      ensures fresh(q) && fresh(r) && q.Valid() && r.Valid()
      ensures Answers(U, V, Quotient(q.Digits(), r.Digits()))
    {
      ghost var A, B := a.Digits(), b.Digits();
      q, r := LongDivide(a, b);
      ghost var Q, R := q.Digits(), r.Digits();
      assert Reached(A, B, |A|, DivState(Q, R));
      TrimAndSign(q, signQ);
      TrimAndSign(r, signR);
      DivModFromLoop(U, V, A, B, Q, R, signQ, signR);
    }

    /** The tail of `divmod`: trim a result, then give its slots the sign s. */
    static method TrimAndSign(x: BigInt, s: int)
      requires x.Valid() && (s == 1 || s == -1)
      modifies x, x.val
      ensures x.Valid() && x.val == old(x.val)
      ensures x.Digits() == Scale(TrimSeq(old(x.Digits())), s)
    {
      x.Trim();
      ApplySign(x, s);
    }

    /** The main loop of `divmod` on the positive copies: q gets |a| zero
        slots and r starts at zero; from the top slot of a down, the slot is
        pushed under r and the quotient digit is stored into q. */
    static method LongDivide(a: BigInt, b: BigInt) returns (q: BigInt, r: BigInt)
      requires a.Valid() && b.Valid()
      ensures fresh(q) && fresh(r) && fresh(q.val) && fresh(r.val) && q.Valid() && r.Valid()
      ensures q != r && q.val != r.val
      ensures Reached(a.Digits(), b.Digits(), a.len, DivState(q.Digits(), r.Digits()))
    {
      ghost var A, B := a.Digits(), b.Digits();
      q := new BigInt();
      q.Reallocate(a.len);
      r := new BigInt();
      ghost var k := 0;
      assert DivLoop(A, B, k) == DivState(q.val[..], r.Digits());
      var idx := a.len;
      while idx > 0
        invariant 0 <= idx <= a.len == |A| && k == |A| - idx
        invariant unchanged(a) && unchanged(a.val) && unchanged(b) && unchanged(b.val)
        invariant fresh(q) && fresh(q.val) && fresh(r) && fresh(r.val) && q.Valid() && r.Valid()
        invariant q.val != r.val && q.len == q.val.Length == |A|
        invariant Reached(A, B, k, DivState(q.val[..], r.Digits()))
      {
        idx := idx - 1;
        r := DivideInto(q, r, b, a.val[idx], idx, A, B, k);
        k := k + 1;
      }
      assert a.Digits() == A && b.Digits() == B && k == a.len && q.Digits() == q.val[..];
    }

    /** The body of the main loop of `divmod`: one step, storing the
        quotient digit into slot idx of q. */
    static method DivideInto(q: BigInt, r: BigInt, b: BigInt, x: int, idx: nat,
                             ghost A: seq<int>, ghost B: seq<int>, ghost k: nat) returns (r': BigInt)
      requires q.Valid() && r.Valid() && b.Valid() && r != b && q.val != r.val && q.val != b.val
      requires k < |A| == q.val.Length && idx == |A| - k - 1 && x == A[idx] && b.Digits() == B
      requires Reached(A, B, k, DivState(q.val[..], r.Digits()))
      modifies r, q.val
      ensures r'.Valid() && (r' == r || fresh(r')) && (r'.val == old(r.val) || fresh(r'.val))
      ensures Reached(A, B, k + 1, DivState(q.val[..], r'.Digits()))
    {
      ghost var Q := q.val[..];
      var d;
      r', d := DivideStep(r, b, x, A, B, k, Q, idx);
      q.val[idx] := d;
      assert q.val[..] == Q[idx := d];
    }

    /** One step of the main loop of `divmod`: push x under r, search the
        digit d when r has reached b, and replace r by `absSub(r, mulDigit(b, d))`. */
    static method DivideStep(r: BigInt, b: BigInt, x: int, ghost A: seq<int>, ghost B: seq<int>,
                             ghost k: nat, ghost Q: seq<int>, ghost idx: nat) returns (r': BigInt, d: int)
      requires r.Valid() && b.Valid() && r != b && b.Digits() == B
      requires k < |A| == |Q| && idx == |A| - k - 1 && x == A[idx]
      requires Reached(A, B, k, DivState(Q, r.Digits()))
      modifies r
      ensures r'.Valid() && (r' == r || fresh(r')) && (r'.val == old(r.val) || fresh(r'.val))
      ensures Reached(A, B, k + 1, DivState(Q[idx := d], r'.Digits()))
    {
      ghost var R := r.Digits();
      PushFrontDigit(r, x);
      r' := r;
      d := 0;
      var cmp := CompareAbs(r, b);
      if cmp >= 0 {
        d := SearchDigit(b, r);
        var m := MulDigit(b, d);
        r' := AbsSub(r, m);
      }
      ReachedNext(A, B, k, Q, R, idx, x, d, r'.Digits());
    }

    /** `operator+`: the carry pass over max(|a|, |b|) + 1 slots, then `trim`. */
    static method Add(a: BigInt, b: BigInt) returns (sum: BigInt)
      requires a.Valid() && b.Valid()
      ensures fresh(sum) && sum.Valid()
      ensures sum.Digits() == TrimSeq(CarrySeq(a.Digits(), b.Digits()))
    {
      sum := new BigInt();
      var buf := CarryPass(a.val[..a.len], b.val[..b.len]);
      sum.val := buf;
      sum.len := buf.Length;
      assert sum.Digits() == buf[..];
      sum.Trim();
    }

    /** The row loop of `operator*`: row i adds b's slot i times a into buf from slot i up. */
    static method AddRows(buf: array<int>, a: BigInt, b: BigInt)
      requires a.Valid() && b.Valid() && buf != a.val && buf != b.val
      requires buf.Length == a.len + b.len && buf[..] == seq(buf.Length, _ => 0)
      modifies buf
      ensures buf[..] == Rows(a.Digits(), b.Digits(), b.len)
    {
      ghost var A, B := a.Digits(), b.Digits();
      var i := 0;
      while i < b.len
        invariant 0 <= i <= b.len && buf[..] == Rows(A, B, i)
      {
        AddRow(buf, a, b.val[i], i);
        i := i + 1;
      }
    }

    /** `operator*`: zero when either operand is; otherwise |a| + |b| zero
        slots, one row per slot of b, then `trim`. */
    static method Mul(a: BigInt, b: BigInt) returns (prod: BigInt)
      requires a.Valid() && b.Valid()
      ensures fresh(prod) && prod.Valid()
      ensures prod.Digits() == MulSeq(a.Digits(), b.Digits())
    {
      prod := new BigInt();
      if a.len == 0 || b.len == 0 {
        return;
      }
      prod.Reallocate(a.len + b.len);
      AddRows(prod.val, a, b);
      assert prod.Digits() == prod.val[..];
      prod.Trim();
    }

    /** `operator+(const BigInt&, long)`: the long converted by `BigInt(long)`, then `operator+`. */
    static method AddLong(a: BigInt, n: int) returns (sum: BigInt)
      requires a.Valid() && LONG_MIN <= n <= LONG_MAX
      ensures fresh(sum) && sum.Valid()
      ensures sum.Digits() == PlainSum(a.Digits(), CanonicalOf(n))
    {
      var b := new BigInt.FromLong(n);
      sum := Add(a, b);
    }

    /** `operator+(const BigInt&, const char*)`: the text converted by the string constructor, then `operator+`. */
    static method AddText(a: BigInt, s: string) returns (sum: BigInt)
      requires a.Valid()
      ensures fresh(sum) && sum.Valid()
      ensures sum.Digits() == PlainSum(a.Digits(), ParseDigits(s))
    {
      var b := new BigInt.FromString(s);
      sum := Add(a, b);
    }

    /** `operator*(const BigInt&, long)`. */
    static method MulLong(a: BigInt, n: int) returns (prod: BigInt)
      requires a.Valid() && LONG_MIN <= n <= LONG_MAX
      ensures fresh(prod) && prod.Valid()
      ensures prod.Digits() == MulSeq(a.Digits(), CanonicalOf(n))
    {
      var b := new BigInt.FromLong(n);
      prod := Mul(a, b);
    }

    /** `operator*(const BigInt&, const char*)`. */
    static method MulText(a: BigInt, s: string) returns (prod: BigInt)
      requires a.Valid()
      ensures fresh(prod) && prod.Valid()
      ensures prod.Digits() == MulSeq(a.Digits(), ParseDigits(s))
    {
      var b := new BigInt.FromString(s);
      prod := Mul(a, b);
    }

    /** `operator/`: the quotient of `divmod`; ok is false where `divmod` throws. */
    static method Divide(a: BigInt, b: BigInt) returns (ok: bool, q: BigInt)
      requires a.Valid() && b.Valid()
      ensures fresh(q) && q.Valid()
      ensures ok <==> DivModSeq(a.Digits(), b.Digits()).Quotient?
      ensures ok ==> q.Digits() == DivModSeq(a.Digits(), b.Digits()).q
    {
      var r;
      ok, q, r := DivMod(a, b);
    }

    /** `operator%`: the remainder of `divmod`; ok is false where `divmod` throws. */
    static method Remainder(a: BigInt, b: BigInt) returns (ok: bool, r: BigInt)
      requires a.Valid() && b.Valid()
      ensures fresh(r) && r.Valid()
      ensures ok <==> DivModSeq(a.Digits(), b.Digits()).Quotient?
      ensures ok ==> r.Digits() == DivModSeq(a.Digits(), b.Digits()).r
    {
      var q;
      ok, q, r := DivMod(a, b);
    }

    /** The sum `operator+` evidently intends: with equal top signs the carry
        pass of `operator+`, otherwise `absSub` of the larger magnitude and
        the smaller, given the sign of the larger. */
    static method AddSigned(a: BigInt, b: BigInt) returns (sum: BigInt)
      requires a.Valid() && b.Valid()
      ensures fresh(sum) && sum.Valid()
      ensures sum.Digits() == SignedAdd(a.Digits(), b.Digits())
    {
      ghost var A, B := a.Digits(), b.Digits();
      var signA := if a.len > 0 && a.val[a.len - 1] < 0 then -1 else 1;
      var signB := if b.len > 0 && b.val[b.len - 1] < 0 then -1 else 1;
      assert signA == TopSign(A) && signB == TopSign(B);
      if signA == signB {
        sum := Add(a, b);
        return;
      }
      var c := CompareAbs(a, b);
      if c >= 0 {
        sum := SignedDifference(a, b, signA);
      } else {
        sum := SignedDifference(b, a, signB);
      }
    }

    /** `absSub(a, b)` with every slot multiplied by the sign s. */
    static method SignedDifference(a: BigInt, b: BigInt, s: int) returns (diff: BigInt)
      requires a.Valid() && b.Valid() && (s == 1 || s == -1)
      ensures fresh(diff) && diff.Valid()
      ensures diff.Digits() == Scale(AbsSubSeq(a.Digits(), b.Digits()), s)
    {
      diff := AbsSub(a, b);
      ApplySign(diff, s);
    }
  }

  /** The main loop of `divmod` has reached state s after k steps. The
      equation is only instantiated where DivLoop(a, b, k) itself is
      mentioned, so that a loop carrying it does not unfold the long
      division step at every heap state. */
  ghost predicate Reached(a: seq<int>, b: seq<int>, k: nat, s: DivState)
  {
    forall j {:trigger DivLoop(a, b, j)} :: j == k <= |a| ==> DivLoop(a, b, j) == s
  }

  /** Taking step k + 1 from the state reached after k steps. */
  lemma ReachedNext(a: seq<int>, b: seq<int>, k: nat, q: seq<int>, r: seq<int>, idx: nat, x: int, d: int, r': seq<int>)
    requires k < |a| == |q| && idx == |a| - k - 1 && x == a[idx] && Reached(a, b, k, DivState(q, r))
    requires d == NextDigit(b, PushFront(r, x)) && r' == NextRem(b, PushFront(r, x))
    ensures Reached(a, b, k + 1, DivState(q[idx := d], r'))
  {
    DivLoopNext(a, b, k, DivLoop(a, b, k), idx, x);
  }

  /** `divmod`'s early exit: a dividend of smaller magnitude is its own remainder. */
  lemma DivModSmall(u: seq<int>, v: seq<int>, a: seq<int>, b: seq<int>)
    requires |v| > 0 && a == AbsDigits(u) && b == AbsDigits(v) && CmpAbs(a, b) < 0
    ensures Answers(u, v, Quotient([], u))
  {
    assert DivModSeq(u, v) == Quotient([], u);
  }

  /** `divmod` past the early exit: the trimmed loop results with the signs applied. */
  lemma DivModFromLoop(u: seq<int>, v: seq<int>, a: seq<int>, b: seq<int>, q: seq<int>, r: seq<int>, sq: int, sr: int)
    requires |v| > 0 && a == AbsDigits(u) && b == AbsDigits(v) && CmpAbs(a, b) >= 0
    requires Reached(a, b, |a|, DivState(q, r))
    requires sq == TopSign(u) * TopSign(v) && sr == TopSign(u)
    ensures Answers(u, v, Quotient(Scale(TrimSeq(q), sq), Scale(TrimSeq(r), sr)))
  {
    assert DivLoop(a, b, |a|) == DivState(q, r);
    assert DivModSeq(u, v) == Quotient(Scale(TrimSeq(q), sq), Scale(TrimSeq(r), sr));
  }

  /** `DivModSeq(u, v)` is `res`; like `Reached`, the trigger keeps the
      definition of `DivModSeq` out of a method's context until a caller
      mentions `DivModSeq(u, v)` itself. */
  ghost predicate Answers(u: seq<int>, v: seq<int>, res: DivResult)
  {
    forall w {:trigger DivModSeq(w, v)} :: w == u ==> DivModSeq(w, v) == res
  }

  const LONG_MIN := -0x8000_0000_0000_0000
  const LONG_MAX := 0x7fff_ffff_ffff_ffff

  /** The text `print` has written once slot i is next to go: the top slot,
      then slots |ds| - 2 down to i, each multiplied by s. */
  function Written(ds: seq<int>, s: int, i: nat): string
    requires i < |ds|
    decreases |ds| - i
  {
    if i == |ds| - 1 then IntText(ds[i]) else Written(ds, s, i + 1) + IntText(ds[i] * s)
  }

  /** What is written so far followed by the slots still to come is the whole of `Render`. */
  lemma {:induction false} WrittenAll(ds: seq<int>, s: int, i: nat)
    requires i < |ds| && s == TopSign(ds)
    ensures Written(ds, s, i) + Tail(ds, s, i) == Render(ds)
    decreases |ds| - i
  {
    if i < |ds| - 1 {
      WrittenAll(ds, s, i + 1);
      Regroup(Written(ds, s, i + 1), IntText(ds[i] * s), Tail(ds, s, i));
    } else {
      WrittenTop(ds, s);
    }
  }

  lemma WrittenTop(ds: seq<int>, s: int)
    requires |ds| > 0 && s == TopSign(ds)
    ensures Written(ds, s, |ds| - 1) + Tail(ds, s, |ds| - 1) == Render(ds)
  {
  }

  /** The whole text written by `print`'s loop is the rendering. */
  lemma WrittenRender(ds: seq<int>, s: int)
    requires |ds| > 0 && s == TopSign(ds)
    ensures Written(ds, s, 0) == Render(ds)
  {
    WrittenAll(ds, s, 0);
    assert Tail(ds, s, 0) == "";
  }

  lemma Regroup(w: string, x: string, t: string)
    ensures (w + x) + t == w + (x + t)
  {
  }

  /** The slots `operator=(long)` fills, after the zero normalisation, are the canonical digits of n. */
  lemma LongDigits(n: int, m: nat, digits: nat)
    requires m == Abs(n) && digits >= 1 && m < Pow10(digits)
    requires digits == 1 || Pow10(digits - 1) <= m
    ensures var ds := Scale(Slots(m, digits), if n < 0 then -1 else 1);
            (if digits == 1 && ds[0] == 0 then [] else ds) == CanonicalOf(n)
  {
    if m == 0 {
      assert Slots(m, digits) == [0];
    } else {
      SlotsAreDigits(m, digits);
    }
  }
}
