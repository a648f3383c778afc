/** Decimal text: the strings BigInt is assigned from and the text `print`
    writes. Characters are compared and converted the way the C++ code does,
    by subtracting '0'. */
module Decimal {
  import opened Arith
  import opened Digits

  predicate IsDigitChar(c: char)
  {
    '0' <= c <= '9'
  }

  /** `c - '0'`, for any character. */
  function CharValue(c: char): int
  {
    c as int - '0' as int
  }

  function DigitChar(d: int): (c: char)
    requires 0 <= d <= 9
    ensures IsDigitChar(c) && CharValue(c) == d
  {
    ('0' as int + d) as char
  }

  predicate AllDigits(t: string)
  {
    forall i :: 0 <= i < |t| ==> IsDigitChar(t[i])
  }

  /** An optional '-' followed by at least one decimal digit. */
  predicate IsDecimal(s: string)
  {
    if |s| > 0 && s[0] == '-' then |s| >= 2 && AllDigits(s[1..]) else |s| >= 1 && AllDigits(s)
  }

  /** The sign a leading '-' gives: -1 with one, 1 without. */
  function SignOfText(s: string): int
  {
    if |s| > 0 && s[0] == '-' then -1 else 1
  }

  /** The characters after an optional leading '-'. */
  function Body(s: string): (t: string)
    ensures |t| <= |s|
  {
    if |s| > 0 && s[0] == '-' then s[1..] else s
  }

  /** The text `print` produces: no leading zero, and no "-0". */
  predicate IsCanonicalDecimal(s: string)
  {
    IsDecimal(s) && (Body(s)[0] == '0' ==> s == "0")
  }

  /** The characters of t read from the right: slot i holds t[|t| - 1 - i] - '0'. */
  function CharSlots(t: string): (ds: seq<int>)
    ensures |ds| == |t|
  {
    seq(|t|, i requires 0 <= i < |t| => CharValue(t[|t| - 1 - i]))
  }

  /** The number written by a string of digits, read left to right. */
  function TextValue(t: string): int
  {
    if t == [] then 0 else 10 * TextValue(t[..|t| - 1]) + CharValue(t[|t| - 1])
  }

  /** The integer a decimal string denotes. */
  function DecimalValue(s: string): int
  {
    if SignOfText(s) < 0 then -TextValue(Body(s)) else TextValue(Body(s))
  }

  /** What `operator<<` writes for a non-negative long. */
  function NatText(m: nat): (t: string)
    ensures |t| >= 1
  {
    if m < 10 then [DigitChar(m)] else NatText(m / 10) + [DigitChar(m % 10)]
  }

  /** The text written for m is all digits and reads back as m. */
  lemma {:induction false} NatTextValue(m: nat)
    ensures AllDigits(NatText(m)) && TextValue(NatText(m)) == m
  {
    if m >= 10 {
      NatTextValue(m / 10);
      var t := NatText(m);
      assert t[..|t| - 1] == NatText(m / 10);
    }
  }

  /** What `operator<<` writes for a long. */
  function IntText(v: int): string
  {
    if v < 0 then "-" + NatText(-v) else NatText(v)
  }

  /** Slot i of the parsed text, before `trim`, is the i-th character from the right times the sign. */
  lemma ParsedSlot(s: string, i: nat)
    requires i < |Body(s)|
    ensures Scale(CharSlots(Body(s)), SignOfText(s))[i] == CharValue(s[|s| - 1 - i]) * SignOfText(s)
  {
    var t := Body(s);
    assert t[|t| - 1 - i] == s[|s| - 1 - i];
    assert CharSlots(t)[i] == CharValue(s[|s| - 1 - i]);
  }

  /** Assignment from a string: digits reversed, each times the sign, then trimmed. */
  function ParseDigits(s: string): seq<int>
  {
    TrimSeq(Scale(CharSlots(Body(s)), SignOfText(s)))
  }

  /** Slots n-1 down to 0, each multiplied by s and written as a long. */
  function Tail(ds: seq<int>, s: int, n: nat): string
    requires n <= |ds|
  {
    if n == 0 then "" else IntText(ds[n - 1] * s) + Tail(ds, s, n - 1)
  }

  /** `print`: "0" for the empty sequence, otherwise the signed top slot
      followed by every lower slot multiplied by the top slot's sign. */
  function Render(ds: seq<int>): string
  {
    if |ds| == 0 then "0" else IntText(ds[|ds| - 1]) + Tail(ds, TopSign(ds), |ds| - 1)
  }

  // ---------------------------------------------------------------- lemmas

  /** Reading the characters right to left gives the number they write. */
  lemma {:induction false} CharSlotsValue(t: string)
    ensures Value(CharSlots(t)) == TextValue(t)
  {
    if t != [] {
      var n := |t|;
      var init := t[..n - 1];
      CharSlotsValue(init);
      assert CharSlots(t)[1..] == CharSlots(init);
      calc {
        Value(CharSlots(t));
        CharSlots(t)[0] + 10 * Value(CharSlots(t)[1..]);
        CharValue(t[n - 1]) + 10 * TextValue(init);
      }
    }
  }

  lemma CharSlotsNonNeg(t: string)
    requires AllDigits(t)
    ensures NonNeg(CharSlots(t))
  {
    forall i | 0 <= i < |t|
      ensures 0 <= CharSlots(t)[i] <= 9
    {
      assert IsDigitChar(t[|t| - 1 - i]);
      assert CharSlots(t)[i] == CharValue(t[|t| - 1 - i]);
    }
  }

  /** A decimal string is parsed into the canonical representation of the number it writes. */
  lemma ParseValue(s: string)
    requires IsDecimal(s)
    ensures Canonical(ParseDigits(s))
    ensures Value(ParseDigits(s)) == DecimalValue(s)
    ensures ParseDigits(s) == CanonicalOf(DecimalValue(s))
  {
    var cs := CharSlots(Body(s));
    CharSlotsValue(Body(s));
    CharSlotsNonNeg(Body(s));
    NegateValue(cs);
    var sc := Scale(cs, SignOfText(s));
    TrimValue(sc);
    CanonicalIsUnique(ParseDigits(s));
  }

  /** Multiplying by a sign s in {-1, 1} negates or keeps. */
  lemma SignMul(x: int, s: int)
    requires s == 1 || s == -1
    ensures x * s == if s < 0 then -x else x
  {
  }

  /** The magnitude digits mag written most significant first. */
  function MagText(mag: seq<int>): (t: string)
    requires NonNeg(mag)
    ensures |t| == |mag|
  {
    seq(|mag|, j requires 0 <= j < |mag| => DigitChar(mag[|mag| - 1 - j]))
  }

  /** Below a top slot of sign s, `print` writes the slots of Scale(ds, s) as single digits. */
  lemma {:induction false} TailIsMagText(ds: seq<int>, s: int, n: nat)
    requires n <= |ds| && (s == 1 || s == -1) && NonNeg(Scale(ds, s))
    ensures Tail(ds, s, n) == MagText(Scale(ds, s)[..n])
  {
    if n > 0 {
      TailIsMagText(ds, s, n - 1);
      var mag := Scale(ds, s);
      SignMul(ds[n - 1], s);
      assert ds[n - 1] * s == mag[n - 1];
      assert IntText(ds[n - 1] * s) == [DigitChar(mag[n - 1])];
      MagTextTop(mag[..n]);
      assert mag[..n][..n - 1] == mag[..n - 1];
    }
  }

  /** The first character of MagText(mag) is its top digit. */
  lemma MagTextTop(mag: seq<int>)
    requires NonNeg(mag) && |mag| > 0
    ensures MagText(mag) == [DigitChar(mag[|mag| - 1])] + MagText(mag[..|mag| - 1])
  {
    var n := |mag|;
    var r := [DigitChar(mag[n - 1])] + MagText(mag[..n - 1]);
    forall j | 0 <= j < n
      ensures MagText(mag)[j] == r[j]
    {
      if j > 0 {
        assert r[j] == MagText(mag[..n - 1])[j - 1];
      }
    }
  }

  /** Reading the characters of MagText(mag) from the right gives back mag. */
  lemma MagTextSlots(mag: seq<int>)
    requires NonNeg(mag)
    ensures CharSlots(MagText(mag)) == mag
  {
    var t := MagText(mag);
    forall i | 0 <= i < |mag|
      ensures CharSlots(t)[i] == mag[i]
    {
      assert t[|t| - 1 - i] == DigitChar(mag[i]);
    }
  }

  /** Writing the slots of a digit string back out gives the string. */
  lemma SlotsMagText(t: string)
    requires AllDigits(t)
    ensures NonNeg(CharSlots(t)) && MagText(CharSlots(t)) == t
  {
    CharSlotsNonNeg(t);
    var cs := CharSlots(t);
    forall j | 0 <= j < |t|
      ensures MagText(cs)[j] == t[j]
    {
      assert cs[|t| - 1 - j] == CharValue(t[j]);
      assert MagText(cs)[j] == DigitChar(CharValue(t[j]));
      assert (('0' as int + (t[j] as int - '0' as int)) as char) == t[j];
    }
  }

  /** A canonical sequence prints as an optional '-' and then its magnitude digits. */
  lemma RenderShape(ds: seq<int>)
    requires Canonical(ds) && ds != []
    ensures NonNeg(Scale(ds, TopSign(ds)))
    ensures Render(ds) == SignText(TopSign(ds)) + MagText(Scale(ds, TopSign(ds)))
  {
    var n := |ds|;
    var sg := TopSign(ds);
    var mag := Scale(ds, sg);
    TopText(ds);
    TailIsMagText(ds, sg, n - 1);
    MagTextTop(mag);
    var c, m := [DigitChar(mag[n - 1])], MagText(mag[..n - 1]);
    assert Render(ds) == (SignText(sg) + c) + m;
    assert (SignText(sg) + c) + m == SignText(sg) + (c + m);
  }

  /** "-" for a negative sign, nothing otherwise. */
  function SignText(sign: int): string
  {
    if sign < 0 then "-" else ""
  }

  /** The top slot of a canonical sequence prints as its sign and one digit. */
  lemma TopText(ds: seq<int>)
    requires Canonical(ds) && ds != []
    ensures NonNeg(Scale(ds, TopSign(ds)))
    ensures IntText(ds[|ds| - 1]) == SignText(TopSign(ds)) + [DigitChar(Scale(ds, TopSign(ds))[|ds| - 1])]
  {
    NegateValue(ds);
  }

  /** A canonical decimal string survives parsing followed by printing. */
  lemma RenderParse(s: string)
    requires IsCanonicalDecimal(s)
    ensures Render(ParseDigits(s)) == s
  {
    if Body(s)[0] == '0' {
      assert s == "0";
      assert CharSlots("0")[0] == CharValue('0') == 0;
      assert Scale(CharSlots(Body(s)), SignOfText(s)) == [0];
      assert TrimSeq([0]) == [];
    } else {
      RenderParseNonZero(s);
    }
  }

  lemma RenderParseNonZero(s: string)
    requires IsDecimal(s) && Body(s)[0] != '0'
    ensures Render(ParseDigits(s)) == s
  {
    var t, sg := Body(s), SignOfText(s);
    var cs := CharSlots(t);
    ParseNonZero(s);
    RenderShape(Scale(cs, sg));
    SlotsMagText(t);
    SignBody(s);
  }

  /** Without a leading zero nothing is trimmed: parsing gives the signed slots,
      whose top slot carries the sign of the text. */
  lemma ParseNonZero(s: string)
    requires IsDecimal(s) && Body(s)[0] != '0'
    ensures var cs := CharSlots(Body(s));
            && ParseDigits(s) == Scale(cs, SignOfText(s))
            && Canonical(ParseDigits(s))
            && ParseDigits(s) != []
            && TopSign(ParseDigits(s)) == SignOfText(s)
            && Scale(ParseDigits(s), SignOfText(s)) == cs
  {
    var t, sg := Body(s), SignOfText(s);
    var cs := CharSlots(t);
    var n := |t|;
    CharSlotsNonNeg(t);
    NegateValue(cs);
    var sc := Scale(cs, sg);
    assert AllDigits(t) && IsDigitChar(t[0]);
    assert cs[n - 1] == CharValue(t[0]);
    assert Trimmed(sc);
  }

  /** A decimal string is its sign text followed by its body. */
  lemma SignBody(s: string)
    requires IsDecimal(s)
    ensures s == SignText(SignOfText(s)) + Body(s)
  {
    if SignOfText(s) < 0 {
      assert s == [s[0]] + s[1..];
    }
  }

  /** Sign text in front of digits is read back as that sign and those digits. */
  lemma SignTextBody(sign: int, t: string)
    requires |t| > 0 && IsDigitChar(t[0])
    ensures Body(SignText(sign) + t) == t
    ensures SignOfText(SignText(sign) + t) == if sign < 0 then -1 else 1
  {
    if sign < 0 {
      assert (SignText(sign) + t)[1..] == t;
    } else {
      assert SignText(sign) + t == t;
    }
  }

  /** A canonical digit sequence survives printing followed by parsing. */
  lemma ParseRender(ds: seq<int>)
    requires Canonical(ds)
    ensures ParseDigits(Render(ds)) == ds
  {
    if ds == [] {
      assert Render(ds) == "0";
      assert CharSlots("0")[0] == CharValue('0') == 0;
    } else {
      var sg := TopSign(ds);
      var mag := Scale(ds, sg);
      RenderShape(ds);
      var m := MagText(mag);
      MagTextTop(mag);
      SignTextBody(sg, m);
      MagTextSlots(mag);
      NegateValue(ds);
      assert Scale(mag, sg) == ds;
      assert ParseDigits(Render(ds)) == TrimSeq(ds);
    }
  }
}
