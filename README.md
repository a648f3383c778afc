# BigInt: a verified model of a decimal arbitrary-precision integer

The modelled repository is a small C++ arbitrary-precision integer. It
stores a number as a buffer of `long` slots, one decimal digit per slot,
least significant first. A negative number carries its sign in every slot.
The main version, `BigInt.cpp`, supports the following:

- construction from a `long` and from a string;
- `print`;
- `+` and `*`;
- `/` and `%` by base-10 long division, with the helpers `trim`,
  `compareAbs`, `absSub`, `mulDigit` and `pushFrontDigit`.

Three older drafts are modelled too:

- `ops.cpp`, a signed `operator+`;
- `diff.cpp`, a member `add` with the same algorithm;
- `sum.cpp`, a non-negative `add`.

`ops.cpp` and `diff.cpp` run a first carry pass, then a "renormalisation"
pass that makes every slot carry the sign of the top slot.

The model is imperative where the source is. Each C++ class becomes a Dafny
class `BigInt` with a buffer `val: array<int>` and a length. Each operation
becomes a method that runs the source's loops over arrays, with loop
invariants. Every method is proved against a specification function on
digit sequences:

- `Value(ds)` is the sum of `ds[i] * 10^i`;
- `CanonicalOf(v)` is the intended representation of `v`: trimmed, with one
  sign in every slot, and empty for zero.

Lemmas about those functions then state what the code achieves, or fails
to achieve. The C++ truncating `/` and `%` are written out as `Quot`,
`Mod`, `TDiv` and `TRem`. `long` becomes an unbounded `int` whose range
appears in preconditions.

Modules:

- `Arith`, `Digits`, `Decimal`: shared arithmetic, digit sequences and
  decimal text.
- `Magnitude`: `compareAbs`, `absSub`, `mulDigit`, `pushFrontDigit`.
- `Carry`: the first carry pass and the renormalisation pass.
- `LongDivision`, `Product`: `divmod` and `operator*`.
- `Addition`: `operator+` of `BigInt.cpp`, and its sign-aware correction.
- `BigIntCore`: the class of `BigInt.cpp`.
- `SignedDrafts`, `OpsDraft`, `DiffDraft`, `SumDraft`: the three drafts.

## Model

| member | source | states |
|---|---|---|
| `Arith.Mod` | BigInt.cpp:29 | `mod(a, 10)` is the remainder of the truncating division: a == Quot(a, b) * b + r, with r in [0, b) for a >= 0 and in (-b, 0] for a < 0; the same function as `mod` in ops.cpp and diff.cpp |
| `Arith.TruncDivLaw` | BigInt.cpp:271-276 | C++ `x / y` and `x % y` satisfy x == q * y + r with abs(r) < abs(y); a non-zero r has the sign of x; a non-zero q is positive exactly when the signs agree; abs(q) and abs(r) are the quotient and remainder of abs(x) by abs(y) |
| `Digits.TrimSeq` | BigInt.cpp:43 | `trim` leaves a prefix of the slots with no zero on top, and every slot it drops was 0 |
| `Digits.TrimValue` | BigInt.cpp:43 | trimming keeps the value |
| `Digits.TrimIdempotent` | BigInt.cpp:43 | trimming twice is trimming once; a trimmed sequence is left as it is |
| `Digits.TrimCanonical` | BigInt.cpp:43 | trimming slots that share one sign gives the canonical representation of their value |
| `Digits.CanonicalOf` | BigInt.cpp:33-34 | the intended representation of v is canonical (trimmed, one sign), has value v, and is empty exactly for zero, the `len_ == 0` of line 142 |
| `Digits.DigitsOf` | BigInt.cpp:33 | the magnitude digits of m are trimmed digits 0..9 of value m |
| `Digits.CanonicalIsUnique` | BigInt.cpp:33-34 | every canonical sequence is CanonicalOf its value, so each number has exactly one canonical representation |
| `Digits.MagnitudeUnique` | BigInt.cpp:33-34 | two trimmed sequences of digits 0..9 with equal values are equal |
| `Digits.CanonicalSign` | BigInt.cpp:101-102 | a canonical sequence is empty exactly when its value is 0, and otherwise is negative exactly when its top slot is |
| `Digits.CanonicalAV` | BigInt.cpp:107-108 | the positive copy of a canonical operand is the operand times its top sign, a magnitude of value abs(v) |
| `Digits.AbsMagnitude` | BigInt.cpp:107-108 | the positive copy of a trimmed sequence with slots in (-10, 10) is a magnitude |
| `Digits.SlotsValue` | BigInt.cpp:191-194 | the fill loop of `operator=(long)` over k slots stores m mod 10^k |
| `Digits.SlotsAreDigits` | BigInt.cpp:188-194 | with exactly as many slots as m has digits, the filled slots are the magnitude digits of m |
| `Magnitude.CmpFromLow` | BigInt.cpp:47-51 | scanning slots i-1 down to 0 compares the low i slots of the two magnitudes |
| `Magnitude.LengthDecides` | BigInt.cpp:46 | a shorter magnitude is smaller, so the length test is sound |
| `Magnitude.CmpAbsValue` | BigInt.cpp:45-53 | on trimmed operands with slots in (-10, 10), `compareAbs` is the sign of abs(a) - abs(b) |
| `Magnitude.SubPassValue` | BigInt.cpp:59-65 | the borrow loop keeps abs(a) - abs(b) on its low slots up to the outstanding borrow, writes digits 0..9 and borrows 0 or 1 |
| `Magnitude.AbsSubValue` | BigInt.cpp:55-68 | for abs(a) >= abs(b) and b no longer than a, `absSub` gives the magnitude digits of abs(a) - abs(b) |
| `Magnitude.MulPassValue` | BigInt.cpp:76-80 | the loop of `mulDigit` keeps abs(a) * d on its low slots up to the carry, writes digits 0..9 and carries at most 8 |
| `Magnitude.MulDigitValue` | BigInt.cpp:71-84 | `mulDigit` by a digit d gives the magnitude digits of abs(a) * d, in at most len(a) + 1 slots |
| `Magnitude.PushFrontValue` | BigInt.cpp:87-95 | `pushFrontDigit` gives 10 * r + d and keeps a magnitude a magnitude |
| `Carry.PassValue` | BigInt.cpp:236-242 | the invariant of the carry loop: value(slots written) + carry * 10^i equals the sum of the low i slots of a and b |
| `Carry.PassBounds` | BigInt.cpp:236-242 | on slots in (-10, 10) the carry stays in [-1, 1] and the slots in (-10, 10); operands of one sign give slots and carry of that sign |
| `Carry.PassSymmetric` | BigInt.cpp:237-239 | the pass does not depend on the order of the operands |
| `Carry.CarryOut` | BigInt.cpp:233-234 | the extra slot above both operands absorbs the last carry: none is lost |
| `Carry.CarryValue` | BigInt.cpp:231-242 | the first pass keeps the value a + b, with every slot in (-10, 10) |
| `Carry.CarrySameSign` | BigInt.cpp:236-242 | operands whose slots share one sign give slots of that sign |
| `Carry.CarryCanonical` | BigInt.cpp:231-245 | for canonical operands of one sign, the pass and `trim` give the canonical representation of a + b |
| `Carry.CarryPass` | BigInt.cpp:234-242 | the loop fills a fresh buffer of max(len a, len b) + 1 slots with the first pass |
| `Carry.TopDigitSign` | ops.cpp:170 | after the trim the top slot is non-zero and has the sign of the value, so it is the sign the renormalisation reads |
| `Carry.RenormPassValue` | ops.cpp:171-179 | after i slots of the renormalisation, the slots plus the carry equal the original low slots plus s * 10^i |
| `Carry.RenormPassDigits` | ops.cpp:171-179 | on slots in (-10, 10) the carry stays 0 or s, every slot written is a digit of sign s, and a first slot of sign s carries s |
| `Carry.RenormedFacts` | ops.cpp:170-180 | the renormalisation keeps the value of the slots up to the last one touched, and makes every one of them a digit of sign s |
| `Carry.Renormalize` | ops.cpp:170-180 | the method touches slot len - 1, or slot 1 when one slot is in use, and leaves the buffer as the renormalised sequence |
| `Carry.RenormSlots` | ops.cpp:171-179 | the loop writes the first top slots of the renormalised sequence and leaves the rest of the buffer unchanged |
| `Decimal.ParsedSlot` | BigInt.cpp:206-208 | slot i of the parsed string is the i-th character from the right minus '0', times the sign |
| `Decimal.ParseValue` | BigInt.cpp:200-212 | a decimal string is parsed into the canonical representation of the number it writes |
| `Decimal.ParseNonZero` | BigInt.cpp:200-212 | without a leading zero nothing is trimmed, and the top slot carries the sign of the text |
| `Decimal.CharSlotsValue` | sum.cpp:37-38 | the characters read from the right give the number the string writes |
| `Decimal.CharSlotsNonNeg` | sum.cpp:37-38 | a string of digits gives slots 0..9 |
| `Decimal.NatTextValue` | BigInt.cpp:218 | the text written for a non-negative `long` is all digits and reads back as that number |
| `Decimal.TopText` | BigInt.cpp:218 | the top slot of a canonical number prints as its sign and one digit |
| `Decimal.TailIsMagText` | BigInt.cpp:219 | below the top slot, each slot times the top sign prints as one digit |
| `Decimal.RenderShape` | BigInt.cpp:215-220 | a non-zero canonical number prints as an optional '-' followed by its magnitude digits |
| `Decimal.RenderParse` | BigInt.cpp:200-220 | a canonical decimal string (no leading zero, no "-0") survives parsing followed by printing |
| `Decimal.RenderParseNonZero` | BigInt.cpp:200-220 | a decimal string without a leading zero survives parsing followed by printing |
| `Decimal.ParseRender` | BigInt.cpp:200-220 | a canonical digit sequence survives printing followed by parsing |
| `LongDivision.SearchValue` | BigInt.cpp:122-128 | the search from d finds min(d, q), where value(r) = q * value(b) + rem: the largest digit whose multiple fits |
| `LongDivision.MultipleFits` | BigInt.cpp:127 | `compareAbs(mulDigit(b, d), r) <= 0` holds exactly when d <= q |
| `LongDivision.ReachesDivisor` | BigInt.cpp:123 | `compareAbs(r, b) >= 0` holds exactly when the quotient digit is at least 1 |
| `LongDivision.SubtractMultiple` | BigInt.cpp:129 | `absSub(r, mulDigit(b, q))` leaves the magnitude digits of the remainder |
| `LongDivision.StepDigit` | BigInt.cpp:122-131 | one step writes the quotient digit q and leaves the remainder rem of value(r) = q * value(b) + rem |
| `LongDivision.NextStep` | BigInt.cpp:120-131 | bringing digit x down under a remainder below b gives a quotient digit 0..9 and a remainder below b with 10 * r + x = q * b + rem |
| `LongDivision.DivLoopInvariant` | BigInt.cpp:119-132 | after k steps the top k digits of a equal the written quotient slots times b plus the remainder, the remainder is a magnitude below b, and the quotient slots are digits |
| `LongDivision.DivMagnitudesValue` | BigInt.cpp:116-134 | the loop and the two trims give the magnitude digits of the quotient and the remainder of value(a) by value(b) |
| `LongDivision.TopSignOf` | BigInt.cpp:101-102 | the sign `divmod` reads off the top slot of a canonical operand is the sign of its value |
| `LongDivision.EarlyExitCorrect` | BigInt.cpp:110-114 | when abs(u) < abs(v), the early exit (q = 0, r = u) is taken and is right: C++'s truncating `/` gives 0 and `%` gives u |
| `LongDivision.AbsOfCanonical` | BigInt.cpp:107-108 | the positive copy of a canonical operand is the magnitude of abs(value) |
| `LongDivision.SignedResults` | BigInt.cpp:136-137 | re-attaching sign_q to the quotient digits and sign_r to the remainder digits gives the canonical truncating quotient and remainder |
| `LongDivision.DivModCorrect` | BigInt.cpp:98-138 | for canonical operands and a non-zero divisor, `divmod` gives the canonical forms of C++'s truncating quotient and remainder |
| `LongDivision.DivModLaw` | BigInt.cpp:271-276 | `/` and `%` give canonical q and r with u = q * v + r, abs(r) < abs(v), and a non-zero r of the sign of u |
| `Product.RowPassValue` | BigInt.cpp:254-259 | after j steps of row i, the buffer plus the pending carry has gained b[i] * (low j slots of a) * 10^i |
| `Product.CarryInValue` | BigInt.cpp:260 | `+= carry` on slot k adds carry * 10^k |
| `Product.RowValue` | BigInt.cpp:253-260 | a whole row adds b[i] * value(a) * 10^i |
| `Product.RowsValue` | BigInt.cpp:252-261 | after i rows the buffer holds value(a) times the low i slots of b |
| `Product.RowPassRange` | BigInt.cpp:254-259 | the row keeps every slot in (-10, 10) with the sign of the product, carries at most 9, and leaves the other slots alone |
| `Product.RowsRange` | BigInt.cpp:252-261 | after i rows every slot is in range, and the slots from i + len(a) up are still zero |
| `Product.MulValue` | BigInt.cpp:248-264 | `operator*` keeps the value: value(a * b) == value(a) * value(b) |
| `Product.MulBounded` | BigInt.cpp:248-264 | every stored slot of the product lies in (-10, 10), whatever the signs of the operands |
| `Product.MulCanonical` | BigInt.cpp:248-264 | for canonical operands the product is the canonical representation of value(a) * value(b) |
| `Product.MulOne` | BigInt.cpp:248-264 | multiplying a canonical number by 1, on either side, gives it back |
| `Product.MulComm` | BigInt.cpp:248-264 | on canonical operands `operator*` is commutative: a * b and b * a give the same slots |
| `Addition.PlainSum` | BigInt.cpp:231-245 | `operator+` returns a trimmed sequence |
| `Addition.PlainSumValue` | BigInt.cpp:231-245 | `operator+` keeps the value a + b for operands of any signs, with slots in (-10, 10) |
| `Addition.PlainSumSameSign` | BigInt.cpp:231-245 | for canonical operands of one sign, `operator+` gives the canonical sum |
| `Addition.AddComm` | BigInt.cpp:231-245 | `operator+` as written is commutative for any slots: a + b and b + a give the same slots |
| `Addition.AddZero` | BigInt.cpp:231-245 | adding zero (no slots) to a canonical number, on either side, gives it back |
| `Addition.MixedSignSum` | BigInt.cpp:231-245 | 10 + (-1) leaves slots [-1, 1]: value 9, not canonical, printed "1-1" |
| `Addition.SignedAddCorrect` | BigInt.cpp:231-245 | the sign-aware sum is the canonical sum for all canonical operands |
| `Addition.SignedAddComm` | BigInt.cpp:231-245 | the sign-aware sum is commutative on canonical operands |
| `Addition.LargerFirst` | BigInt.cpp:55-68 | for opposite signs with abs(a) >= abs(b), `absSub(a, b)` given a's sign is the canonical sum |
| `Addition.MagnitudeOrder` | BigInt.cpp:45-53 | a `compareAbs` decided in favour of a bounds b's magnitude and length by a's |
| `BigIntCore.BigInt.constructor` | BigInt.cpp:142 | the default object is zero, the empty sequence |
| `BigIntCore.BigInt.Reallocate` | BigInt.cpp:37-41 | a fresh buffer of n zero slots, all in use |
| `BigIntCore.BigInt.Copy` | BigInt.cpp:148-153 | the copy has a fresh buffer with the same digits |
| `BigIntCore.BigInt.Trim` | BigInt.cpp:43 | the same buffer, whose digits in use become the trimmed old digits |
| `BigIntCore.BigInt.CompareAbs` | BigInt.cpp:45-53 | the result is CmpAbs of the digits, which `Magnitude.CmpAbsValue` relates to the magnitudes |
| `BigIntCore.BigInt.AbsSub` | BigInt.cpp:55-68 | a fresh result holding `absSub` of the digits |
| `BigIntCore.BigInt.MulDigit` | BigInt.cpp:71-84 | a fresh result holding `mulDigit` of the digits |
| `BigIntCore.BigInt.MulPassInto` | BigInt.cpp:76-80 | the loop of `mulDigit` writes the multiplication pass into the buffer and returns its carry, leaving the top slot alone |
| `BigIntCore.BigInt.PushFrontDigit` | BigInt.cpp:87-95 | r becomes r with d pushed below slot 0, and stays unchanged when r is zero and d is 0 |
| `BigIntCore.BigInt.AbsCopy` | BigInt.cpp:107-108 | a fresh copy with `std::abs` applied to every slot |
| `BigIntCore.BigInt.SearchDigit` | BigInt.cpp:122-128 | the digit found is the search from 9 down |
| `BigIntCore.BigInt.ApplySign` | BigInt.cpp:136-137 | every slot in use is multiplied by the sign |
| `BigIntCore.BigInt.TrimAndSign` | BigInt.cpp:133-137 | a result is trimmed and then signed, in its own buffer |
| `BigIntCore.BigInt.DivideStep` | BigInt.cpp:120-130 | one step of the main loop takes the loop state from k to k + 1 steps |
| `BigIntCore.BigInt.DivideInto` | BigInt.cpp:120-131 | one step that also stores the digit into slot idx of q |
| `BigIntCore.BigInt.LongDivide` | BigInt.cpp:116-132 | the main loop runs all len(a) steps from q of len(a) slots and r zero |
| `BigIntCore.BigInt.DivideMagnitudes` | BigInt.cpp:116-137 | the loop, the trims and the signs answer the division of u by v |
| `BigIntCore.BigInt.DivideNonZero` | BigInt.cpp:100-137 | past the zero check, q and r answer the division of u by v |
| `BigIntCore.BigInt.DivMod` | BigInt.cpp:98-138 | ok is false exactly where `divmod` throws, and otherwise q and r are the model's quotient and remainder |
| `BigIntCore.BigInt.FromLong` | BigInt.cpp:144 | construction from a `long` gives the canonical digits of n |
| `BigIntCore.BigInt.AssignLong` | BigInt.cpp:184-198 | assignment from a `long` gives the canonical digits of n, zero included |
| `BigIntCore.LongDigits` | BigInt.cpp:188-196 | the counted and filled slots, after the zero normalisation, are the canonical digits of n |
| `BigIntCore.BigInt.FromString` | BigInt.cpp:145 | construction from a string gives the parsed digits |
| `BigIntCore.BigInt.AssignString` | BigInt.cpp:200-212 | assignment from a string gives the digits reversed, times the sign, trimmed |
| `BigIntCore.BigInt.Print` | BigInt.cpp:215-220 | the text written is the rendering of the digits in use |
| `BigIntCore.WrittenAll` | BigInt.cpp:219 | the invariant of the print loop: what is written so far, followed by the slots still to come, is the whole rendering |
| `BigIntCore.WrittenRender` | BigInt.cpp:215-220 | the whole text written by the print loop is the rendering |
| `BigIntCore.BigInt.Add` | BigInt.cpp:231-245 | a fresh sum holding the first carry pass, trimmed |
| `BigIntCore.BigInt.AddRow` | BigInt.cpp:253-260 | the inner loop and `+= carry` leave the buffer as row i |
| `BigIntCore.BigInt.AddRows` | BigInt.cpp:252-261 | the outer loop leaves the buffer as every row of b applied |
| `BigIntCore.BigInt.Mul` | BigInt.cpp:248-264 | a fresh product holding `operator*` of the digits |
| `BigIntCore.BigInt.AddLong` | BigInt.cpp:267 | the long converted, then `operator+` |
| `BigIntCore.BigInt.AddText` | BigInt.cpp:268 | the text converted, then `operator+` |
| `BigIntCore.BigInt.MulLong` | BigInt.cpp:269 | the long converted, then `operator*` |
| `BigIntCore.BigInt.MulText` | BigInt.cpp:270 | the text converted, then `operator*` |
| `BigIntCore.BigInt.Divide` | BigInt.cpp:271-273 | ok exactly when the divisor is non-zero, and then q is the quotient of `divmod` |
| `BigIntCore.BigInt.Remainder` | BigInt.cpp:274-276 | ok exactly when the divisor is non-zero, and then r is the remainder of `divmod` |
| `BigIntCore.BigInt.AddSigned` | BigInt.cpp:231-245 | the corrected `operator+`: the sign-aware sum of the digits |
| `BigIntCore.BigInt.SignedDifference` | BigInt.cpp:55-68 | `absSub(a, b)` with every slot given the sign s |
| `SignedDrafts.LongSlots` | diff.cpp:18-36 | the buffer built from a `long` holds the canonical digits of n, with zero as one 0 slot |
| `SignedDrafts.SignedSlots` | ops.cpp:26-35 | counting with `t <= n` and filling gives the canonical digits of n, with zero as one 0 slot |
| `SignedDrafts.TextSlots` | diff.cpp:37-55 | for a well-formed numeral of non-zero value, the slots in use are the parsed digits |
| `SignedDrafts.ReadBackward` | diff.cpp:42-52 | the loop of `BigInt(string)` fills one slot per character of the body, read from the right and times the sign, and stops at the '-' |
| `SignedDrafts.TrimFrom` | ops.cpp:168-169 | the unguarded trim leaves exactly the trimmed slots when some slot is non-zero |
| `SignedDrafts.UsedSlots` | ops.cpp:168-169 | after the first pass and the trim, between 1 and max(len a, len b) + 1 slots are in use |
| `SignedDrafts.TwoPass` | ops.cpp:148-180 | a fresh buffer holding the first pass, trimmed and renormalised, with the length in use and the last slot touched |
| `SignedDrafts.TrimmedPass` | ops.cpp:156-169 | after the first pass and the trim, the top slot is non-zero with the sign of a + b, and the slots up to the last one touched hold a + b |
| `SignedDrafts.RenormalizedFacts` | ops.cpp:156-180 | after the renormalisation, the slots up to the last one touched hold a + b and are digits of its sign |
| `SignedDrafts.GuardedDrop` | ops.cpp:181-182 | dropping one zero top slot only when more than one is in use keeps the value and the signs, and leaves at least one slot |
| `SignedDrafts.GuardedSumCorrect` | ops.cpp:146-184 | for a non-zero sum, `operator+` gives a non-empty sequence of value a + b whose slots are digits of its sign |
| `SignedDrafts.UnguardedSumCases` | diff.cpp:89-125 | `add` agrees with ops.cpp when more than one slot is in use, and gives zero, not a + b, when one is |
| `SignedDrafts.TwoPlusThree` | diff.cpp:122-124 | 2 + 3 gives the empty sequence (zero) in diff.cpp and [5] in ops.cpp |
| `SignedDrafts.LeadingZero` | ops.cpp:180-182 | 100 + (-99) gives [1, 0], which is not trimmed and prints "01" |
| `SignedDrafts.TrimmedSumCanonical` | ops.cpp:168-182 | with a full trim in place of the one-slot drop, the sum is the canonical representation of a + b |
| `OpsDraft.BigInt.constructor` | ops.cpp:13-17 | the default object has no slots |
| `OpsDraft.BigInt.FromLong` | ops.cpp:18-36 | the slots are the canonical digits of n, with zero as one 0 slot |
| `OpsDraft.BigInt.FromString` | ops.cpp:37-55 | the slots are the parsed digits |
| `OpsDraft.BigInt.Add` | ops.cpp:146-184 | a fresh sum holding the guarded two-pass sum |
| `OpsDraft.BigInt.AddLong` | ops.cpp:185-189 | the long converted, then `operator+` |
| `OpsDraft.BigInt.AddText` | ops.cpp:190-194 | the string converted, then `operator+` |
| `DiffDraft.BigInt.constructor` | diff.cpp:13-17 | the default object has no slots |
| `DiffDraft.BigInt.FromLong` | diff.cpp:18-36 | the slots are the canonical digits of n, with zero as one 0 slot |
| `DiffDraft.BigInt.FromString` | diff.cpp:37-55 | the slots are the parsed digits |
| `DiffDraft.BigInt.Add` | diff.cpp:89-125 | this object holds the unguarded two-pass sum of the operands as passed, by value |
| `DiffDraft.BigInt.AddLong` | diff.cpp:77-81 | the long converted, then `add` |
| `DiffDraft.BigInt.AddText` | diff.cpp:83-87 | the string converted, then `add` |
| `SumDraft.CountFrom` | sum.cpp:15-17 | counting up from k while 10^c < n stops at a count c >= k with n <= 10^c, and 10^(c - 1) < n unless c == k |
| `SumDraft.StrictSlots` | sum.cpp:15-24 | the buffer holds the C++ remainder n % 10 for negative n, and otherwise the first CountFrom(n, 1) decimal slots of n |
| `SumDraft.LongSlotsDigits` | sum.cpp:13-25 | for positive n other than 10, 100, 1000, ..., the slots are the decimal digits of n |
| `SumDraft.PowerOfTenLost` | sum.cpp:16 | for n = 10^j the count stops at j slots, which hold 0 |
| `SumDraft.TenIsZero` | sum.cpp:16 | `BigInt(10)` is the single slot 0 |
| `SumDraft.BigInt.constructor` | sum.cpp:8-12 | the default object has no slots |
| `SumDraft.BigInt.FromLong` | sum.cpp:13-25 | the slots are those of the strict count |
| `SumDraft.BigInt.FromString` | sum.cpp:33-39 | one slot per character, read from the right, minus '0' |
| `SumDraft.SumPrefix` | sum.cpp:103-109 | the loop over the common slots writes the carry pass there |
| `SumDraft.SumTail` | sum.cpp:121-127 | the loop over the tail of the longer operand continues the same carry pass |
| `SumDraft.BigInt.Add` | sum.cpp:96-132 | this object holds the carry pass over max(len a, len b) slots, plus the final carry when it is not zero |
| `SumDraft.BigInt.AddLong` | sum.cpp:84-88 | the long converted by the strict count, then `add` |
| `SumDraft.BigInt.AddText` | sum.cpp:90-94 | the string converted, then `add` |
| `SumDraft.SumSlotsCorrect` | sum.cpp:96-132 | on digits 0..9, `add` gives digits 0..9 of value a + b, one slot longer than the longer operand exactly when the sum reaches 10^max(len a, len b) |
| `SumDraft.SumSlotsCanonical` | sum.cpp:96-132 | on trimmed digits 0..9, `add` gives trimmed digits 0..9 of value a + b: no zero on top, so the magnitude digits of the sum |

## Left out

- Stream I/O is not modelled. This covers `operator<<`, `operator>>`, `display`, `pl` and `main` in every file. BigInt.cpp's `print` and the `display` of ops.cpp and diff.cpp (ops.cpp:64-76, diff.cpp:64-76) are the pure function `Decimal.Render`.
- sum.cpp's `display` (sum.cpp:48-53) is not modelled. It writes only a newline for zero slots, which the default constructor leaves, where `Render` writes "0". It also writes each slot with its own sign, without multiplying by the top slot's sign.
- Memory management is not modelled: destructors, move constructors and assignments, copy assignment, `delete[]`, and the copy constructors of the drafts. The model allocates fresh arrays and never frees them.
- The drafts' multiplication (ops.cpp:78-109 and 196-230, diff.cpp:127-158) is left out. It adds into a buffer that `new long[length]` leaves uninitialised, so its result depends on memory contents the program never sets.
- ops.cpp:116-123 are assignment operators that construct and then copy. They are covered by the constructors.
- `long` is an unbounded `int`; overflow is not modelled. BigInt.cpp's conversions require LONG_MIN <= n <= LONG_MAX.
- The drafts' `int t` counter needs its bound as a precondition: abs(n) < 10^9 in ops.cpp and diff.cpp, and n <= 10^9 in sum.cpp.
- Malformed strings are out of scope: a decimal numeral is required, and sum.cpp requires digits only. BigInt.cpp's `operator=(string)` checks nothing, and for ASCII text the model parses any string the same way.
- `Decimal.CharValue` and the string conversions work on characters, not bytes. The sources subtract '0' from each byte of a `std::string`, with `char` signed. A non-ASCII character therefore gives one slot per byte of its UTF-8 encoding there, and one slot for its code point in the model: "é" gives the two slots -109 and -135 in C++, and 185 in the model.
- `SignedDrafts.TextSlots`, `OpsDraft.BigInt.FromString`, `DiffDraft.BigInt.FromString`: these require a non-zero value. For zero, the drafts' unguarded trim reads below slot 0.
- `OpsDraft.BigInt.Add`, `DiffDraft.BigInt.Add` and their overloads require `SignedDrafts.NonZeroPass`, a non-zero first pass. For a zero sum the unguarded trim at ops.cpp:168-169 reads below slot 0.
- `SumDraft.BigInt.Add`, `SumDraft.BigInt.AddLong`, `SumDraft.BigInt.AddText`: these require that this object is neither operand. sum.cpp takes the operands by reference and overwrites `length` and `val` first, so `x.add(x, y)` reads the new buffer.
- `BigIntCore.BigInt.DivMod`, `BigIntCore.BigInt.Divide`, `BigIntCore.BigInt.Remainder`: `std::runtime_error` becomes ok == false. q and r are fresh results, not reference parameters.
- `BigIntCore.BigInt.AddSigned` is a corrected `operator+`, not part of the source. `BigIntCore.BigInt.Add` and its overloads keep the code as written.

## Findings

| source | as written | input that shows it | evidently intended | confidence | as-written member | corrected member |
|---|---|---|---|---|---|---|
| BigInt.cpp:231-245 | `operator+` runs the carry pass and `trim` only | 10 + (-1) leaves slots [-1, 1]: value 9, but the signs are mixed and `print` writes "1-1" | a sign-aware sum: subtract the smaller magnitude from the larger and take the larger one's sign | not executed | `Addition.MixedSignSum` | `Addition.SignedAddCorrect` |
| diff.cpp:123-124 | the zero top slot is dropped without the `length > 1` guard | 2 + 3: one slot is in use, renormalisation clears slot 1, and the drop leaves length 0, so the sum reads as 0 | drop only when more than one slot is in use, as ops.cpp:181 does | not executed | `SignedDrafts.TwoPlusThree` | `SignedDrafts.GuardedSumCorrect` |
| ops.cpp:181-182 | at most one zero slot is dropped after the renormalisation | 100 + (-99) gives slots [1, 0], displayed "01" | a full trim | not executed | `SignedDrafts.LeadingZero` | `SignedDrafts.TrimmedSumCanonical` |
| sum.cpp:16 | the slot count grows while `t < n` | `BigInt(10)` gets one slot, holding 0; every 10^j gets j zero slots | count while `t <= n`, as ops.cpp:27 does | not executed | `SumDraft.TenIsZero` | `SignedDrafts.SignedSlots` |
