/** diff.cpp, the earlier signed draft: the same BigInt, constructors and
    two-pass addition as ops.cpp, but `add` is a member that overwrites
    the object, and its final drop of a zero top slot has no `length > 1`
    guard. */
module DiffDraft {
  import opened Digits
  import opened Decimal
  import opened SignedDrafts

  class BigInt {
    var val: array<int>
    var length: nat

    ghost predicate Valid()
      reads this
    {
      length <= val.Length
    }

    /** The digits in use, least significant first. */
    function Digits(): seq<int>
      reads this, val
      requires Valid()
    {
      val[..length]
    }

    /** `BigInt()`: no buffer, length 0. */
    constructor()
      ensures Valid() && Digits() == []
    {
      val := new int[0];
      length := 0;
    }

    /** `BigInt(long n)`: one slot per decimal digit of |n| times the sign; zero is one 0 slot. */
    constructor FromLong(n: int)
      requires -1_000_000_000 < n < 1_000_000_000
      ensures Valid() && Digits() == if n == 0 then [0] else CanonicalOf(n)
    {
      var buf := LongSlots(n);
      val := buf;
      length := buf.Length;
    }

    /** `BigInt(string s)`: the digits reversed, each times the sign, then trimmed. */
    constructor FromString(s: string)
      requires IsDecimal(s) && DecimalValue(s) != 0
      ensures Valid() && Digits() == ParseDigits(s)
    {
      var buf, len := TextSlots(s);
      val := buf;
      length := len;
    }

    /** `add(BigInt a, BigInt b)`: the operands are copies; this object gets
        the fresh buffer of the first pass, the trim and the
        renormalisation, and loses one zero top slot whatever its length.
        The trim demands a non-zero slot. */
    method Add(a: BigInt, b: BigInt)
      requires a.Valid() && b.Valid() && NonZeroPass(a.Digits(), b.Digits())
      modifies this
      ensures Valid() && fresh(val)
      ensures Digits() == UnguardedSum(old(a.Digits()), old(b.Digits()))
    {
      var buf, len, top := TwoPass(a.val[..a.length], b.val[..b.length]);
      if buf[top] == 0 {
        len := len - 1;
      }
      val := buf;
      length := len;
    }

    /** `add(BigInt&, long)`: the long converted, then `add`. */
    method AddLong(a: BigInt, n: int)
      requires a.Valid() && -1_000_000_000 < n < 1_000_000_000
      requires NonZeroPass(a.Digits(), if n == 0 then [0] else CanonicalOf(n))
      modifies this
      ensures Valid() && fresh(val)
      ensures Digits() == UnguardedSum(old(a.Digits()), if n == 0 then [0] else CanonicalOf(n))
    {
      var b := new BigInt.FromLong(n);
      Add(a, b);
    }

    /** `add(BigInt&, string)`: the string converted, then `add`. */
    method AddText(a: BigInt, s: string)
      requires a.Valid() && IsDecimal(s) && DecimalValue(s) != 0
      requires NonZeroPass(a.Digits(), ParseDigits(s))
      modifies this
      ensures Valid() && fresh(val)
      ensures Digits() == UnguardedSum(old(a.Digits()), ParseDigits(s))
    {
      var b := new BigInt.FromString(s);
      Add(a, b);
    }
  }
}
