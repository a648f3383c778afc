/** ops.cpp, the later signed draft: a BigInt whose first `length` slots
    of `val` are the digits, built from a long or from a decimal string and
    added by the two-pass `operator+` of SignedDrafts, whose final drop of a
    zero top slot is guarded by `length > 1`. */
module OpsDraft {
  import opened Digits
  import opened Decimal
  import opened SignedDrafts

  class BigInt {
    var val: array<int>
    var length: nat

    ghost predicate Valid()
      reads this
    {
      length <= val.Length
    }

    /** The digits in use, least significant first. */
    function Digits(): seq<int>
      reads this, val
      requires Valid()
    {
      val[..length]
    }

    /** `BigInt()`: no buffer, length 0. */
    constructor()
      ensures Valid() && Digits() == []
    {
      val := new int[0];
      length := 0;
    }

    /** `BigInt(long n)`: one slot per decimal digit of |n| times the sign; zero is one 0 slot. */
    constructor FromLong(n: int)
      requires -1_000_000_000 < n < 1_000_000_000
      ensures Valid() && Digits() == if n == 0 then [0] else CanonicalOf(n)
    {
      var buf := LongSlots(n);
      val := buf;
      length := buf.Length;
    }

    /** `BigInt(string s)`: the digits reversed, each times the sign, then trimmed. */
    constructor FromString(s: string)
      requires IsDecimal(s) && DecimalValue(s) != 0
      ensures Valid() && Digits() == ParseDigits(s)
    {
      var buf, len := TextSlots(s);
      val := buf;
      length := len;
    }

    /** `operator+(BigInt a, BigInt b)`: the first pass, the trim, the
        renormalisation, and one zero top slot dropped when more than one
        slot is in use. The trim demands a non-zero slot. */
    static method Add(a: BigInt, b: BigInt) returns (sum: BigInt)
      requires a.Valid() && b.Valid() && NonZeroPass(a.Digits(), b.Digits())
      ensures fresh(sum) && sum.Valid() && sum.Digits() == GuardedSum(a.Digits(), b.Digits())
    {
      var buf, len, top := TwoPass(a.val[..a.length], b.val[..b.length]);
      if buf[top] == 0 && len > 1 {
        len := len - 1;
      }
      sum := new BigInt();
      sum.val := buf;
      sum.length := len;
    }

    /** `operator+(BigInt&, long)`: the long converted, then `operator+`. */
    static method AddLong(a: BigInt, n: int) returns (sum: BigInt)
      requires a.Valid() && -1_000_000_000 < n < 1_000_000_000
      requires NonZeroPass(a.Digits(), if n == 0 then [0] else CanonicalOf(n))
      ensures fresh(sum) && sum.Valid()
      ensures sum.Digits() == GuardedSum(a.Digits(), if n == 0 then [0] else CanonicalOf(n))
    {
      var b := new BigInt.FromLong(n);
      sum := Add(a, b);
    }

    /** `operator+(BigInt&, string)`: the string converted, then `operator+`. */
    static method AddText(a: BigInt, s: string) returns (sum: BigInt)
      requires a.Valid() && IsDecimal(s) && DecimalValue(s) != 0
      requires NonZeroPass(a.Digits(), ParseDigits(s))
      ensures fresh(sum) && sum.Valid() && sum.Digits() == GuardedSum(a.Digits(), ParseDigits(s))
    {
      var b := new BigInt.FromString(s);
      sum := Add(a, b);
    }
  }
}
