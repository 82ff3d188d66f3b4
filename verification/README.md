# Algorithmic-C arithmetic, buffers and codecs: a Dafny model

The project models the parts of the Algorithmic-C header library (`ac_include/`) that compute something, and proves what
they compute, for every width, limb count, line length, input text or run of calls:

- **Multi-limb arithmetic** (`ac_int.h`): multiplication, the 16-bit-digit long division with its estimate and
  correction, signed division and remainder, constant shifts, and printing in decimal. Limb vectors are arrays of 32-bit
  words; the C++ 64-bit intermediate results are wrapped explicitly.
- **Floating point and fixed point** (`ac_std_float.h`, `ac_fixed.h`): the digit-recurrence divider and square root, the
  correctly rounded product, quotient and root of `ac_std_float<W,E>`, the conversions to and from `ac_float`, and the
  converting constructor of `ac_fixed` with eight rounding and four overflow modes.
- **Line buffers and windows** (`ac_buffer_2d.h`, `ac_window_1d_flag.h`, `ac_window_2d_flag.h`): circular row memories,
  dual-port or packed single-port, and shift registers completed at the borders, against plain indexing into the image.
- **The copy-on-write array** (`mc_container_types.h`): value semantics of whole programs over shared, counted blocks.
- **Codecs**: the CSV state machine (`csvparser.c`), the JPEG bit writer (`ccs_jpgfile.cpp`) and bit fields in a byte
  payload (`ccs_gp_typeconv.h`).

Template parameters (limb counts, widths, points, modes, window and line sizes) are ordinary parameters here, so each
theorem covers all instances. Operations that update storage are methods over arrays and classes; each is proved against
a specification on numbers, sequences or histories, and the specifications have lemmas of their own: uniqueness, round
trips, and what they mean without reference to the algorithm.

Shared modules: `Arith` (shifts on unbounded integers), `BitInt` (fields of w bits), `Limbs` and `LimbOps` (the numbers
limb vectors denote). A module corresponds to one operation or one source file. `dafny verify dfyconfig.toml` checks
everything.

## Where the code and its documentation or standard differ

- `ac_fixed`: saturation is missed, and 0 is stored, when an unsigned source is as wide as the target's limbs reach above
  the dropped bits (W2 = F2 - F + 32N) and rounding carries out of them. `FixedConvert.SaturationMissed` is an input and
  `FixedConvert.ConvertedExactly` the exact condition. A one-bit `AC_SAT_SYM` target stores -1, while `set_val` of the
  same type (ac_fixed.h:398-404) gives 0 as its least value; -1 of a one-bit `AC_SAT_SYM` source can become the number a
  symmetric target excludes (`FixedConvert.OneBitTargetMissed`, `FixedConvert.OneBitSourceMissed`).
- `ac_fixed`: between types whose points lie far apart the constructor reads limbs in front of the source or behind it.
  What is behind has no effect (`FixedConvert.Fixed.Quantization`); what is in front can make a zero saturate
  (`FixedConvert.MisreadExactly`, and `FixedConvert.ZeroSaturates` for two types).
- `ac_std_float`: the square root of -0 is +0; section 5.4.1 of IEEE 754-2008 gives -0 (`FloatSqrt.RootOfMinusZero`).
- `ac_std_float` with E = 2: a product of a zero or subnormal with a number of the largest exponent can come out infinite,
  0 times 2 for one (`FloatMult.ZeroTimesTwo`; the exact condition is `FloatMult.InfinityTooEarly`), and `to_ac_float`
  makes subnormal numbers four times as large (`FloatConvert.KeepsValue`).
- `iv_rem`: for a numerator narrower than the divisor `iv_udiv` copies limbs from behind the local numerator array. The
  result does not depend on them. `SignedDivision.Remainder` proves for which sizes (`SignedDivision.ReadsBeyond`);
  `SignedDivision.NarrowByWide` is a case.
- The CSV parser drops carriage returns inside quoted fields as well, where section 2 of RFC 4180 allows them
  (`CsvParser.ReturnsPassed`).
- The CSV parser writes the terminator of an empty field in front of its buffer when the text ends right behind the quote
  that opens a later field. `CsvParser.UnderrunExactly` is the exact condition, `CsvParser.UnderrunInput` a text;
  `CsvParser.Parser.NextRow` asks for other texts.
- A row that the string itself ends takes the terminator along, and the call after it reads behind the string: the one
  that should return NULL, or in a parser with a header line the second half of the first `CsvParser_getRow`.
  `CsvParser.TakesTerminatorExactly` is the exact condition, `CsvParser.HeaderAlone` has two texts.
- Single-port line buffers give an odd row a word of its own for the last pixel (ac_buffer_2d.h:44-45), but that word is
  never written (`LineBuffer.LineBuf.Access`, and `LineBuffer.OddRowLost` for a run).
- A mirroring window of even size reads behind its array when a line starts at the centre
  (`WindowLines.EvenMirrorReadsBehind`).
- `fx_sqrt`: with fewer result bits than half the radicand's, the inexact flag overlooks the dropped low bits
  (`FixedPointCores.FlagMeaning`, and `FixedPointCores.FlagMissed` for an input).
- The constructor from `ac_float` changes the value of an unnormalised mantissa above the two lowest exponents
  (`FloatConvert.FromAcFloat`, and `FloatConvert.Unnormalised` for an input).
- Decimal fractions: a zero fraction of more than one limb prints "0", one of a single limb prints nothing.
- `operator==` of the copy-on-write array compares two arrays without blocks even when their bounds are empty
  (`CowArray.EmptyBoundsDiffer`).

## Model

| member | source | states |
|---|---|---|
| LongDivision.UDiv | ac_include/ac_int.h:731-829 | For all limb counts the Q limbs written are floor(n/d) modulo 2^(32Q) and the R limbs written are n mod d modulo 2^(32R); limbs beyond them are untouched. The first copy reads past n exactly when R exceeds its size, and then the results do not depend on what is read. |
| LongDivision.DivideStep | ac_include/ac_int.h:768-813 | One turn of the digit loop yields the exact 16-bit quotient digit and leaves exactly the remainder in the limbs, whatever the parity of the digit positions. |
| LongDivision.EstimateDigit | ac_include/ac_int.h:769-778 | The packed-top-digits estimate, after its one decrement, is the true digit or one more, and fits 16 bits, so the "Please report" assertion cannot fire. |
| LongDivision.Estimate | ac_include/ac_int.h:772-775 | Dividing the top digits of numerator and divisor never underestimates and overestimates by at most one. |
| LongDivision.TopDigitsValue | ac_include/ac_int.h:769-774 | The packed 64-bit word is the whole partial remainder scaled so that the current digit sits at bit 32, rounded down, for odd and even positions. |
| LongDivision.MulSubLimb | ac_include/ac_int.h:785-796 | Although the product and the difference wrap modulo 2^64, limb and borrow come out as in exact arithmetic: the ov1 patch recovers exactly the lost borrow, and ov2, asserted never to hold, changes nothing. |
| LongDivision.MulSub | ac_include/ac_int.h:783-797 | The window of limbs with the final borrow above it is the old window minus q2 times the divisor; nothing outside the window changes. |
| LongDivision.AfterSubtract | ac_include/ac_int.h:802-813 | The difference is negative exactly when the estimate was one too large, and then a single add-back makes it non-negative. |
| LongDivision.CorrectDigit | ac_include/ac_int.h:802-813 | The add-back restores the value of the limbs to the difference plus one shifted divisor. |
| LongDivision.DigitLoop | ac_include/ac_int.h:764-820 | Over the whole loop dividend = remainder + divisor times quotient, with the remainder below the divisor and the quotient reduced modulo 2^(32Q). |
| Multiply.Mult | ac_include/ac_int.h:437-497 | For all operand and result sizes the result is the product of the two signed numbers wrapped to 32Nr bits, and the exact product once the result has N1+N2 limbs. |
| Multiply.ColumnsAreProduct | ac_include/ac_int.h:449-485 | The schoolbook columns, with only the last digit of either operand signed, add up to the product of the two signed numbers. |
| Multiply.AccumulateProduct | ac_include/ac_int.h:428-435 | Neither 64-bit accumulator overflows while the shorter operand has fewer than 2^31 limbs, so l1 + 2^32 l2 stays the exact column sum. |
| Multiply.EndColumn | ac_include/ac_int.h:449-490 | Emitting one word and folding the accumulators keeps the column sum: sum = word + 2^32 (what is carried on). |
| Multiply.PartialIsWrap | ac_include/ac_int.h:484-488 | Truncating the columns to the result limbs is reduction modulo their size, read as two's complement. |
| SignedDivision.Div | ac_include/ac_int.h:831-868 | The result is the C++ quotient (truncated towards zero) wrapped to the result limbs, for every sign combination, including the most negative numerator over -1. |
| SignedDivision.Remainder | ac_include/ac_int.h:870-907 | The result is the C++ remainder, with the sign of the numerator, wrapped to the result limbs, with the local arrays as large as the code makes them. Limbs past the numerator are read exactly for the sizes ReadsBeyond names: neither machine division nor unsigned, and N2 > N1 + [Num_s = 2] (or, unsigned, Nr > N1); whatever they hold, the result is the same. |
| SignedDivision.NarrowByWide | ac_include/ac_int.h:890-899 | A concrete case: one signed limb by three filled ones, `ac_int<8,true> % ac_int<96,true>`, reads past the numerator. |
| SignedDivision.QuotRemTruncate | ac_include/ac_int.h:831-907 | a = (a/b) b + a%b, |a%b| < |b|, and a non-zero remainder has the numerator's sign. |
| SignedDivision.TruncatesUnique | ac_include/ac_int.h:831-907 | No other pair of quotient and remainder has these properties. |
| SignedDivision.MachineQuotFits | ac_include/ac_int.h:833-850 | In the branches that use 64-bit machine division the quotient always fits, because of the extra limb chosen when Num_s is 2. |
| LimbOps.Negate | ac_include/ac_int.h:706-718 | Two's-complement negation wrapped to the result, exact as soon as there is one limb to spare. |
| LimbOps.AbsLimbs | ac_include/ac_int.h:720-728 | The limbs read as unsigned are the magnitude, the most negative number included. |
| LimbShifts.ConstShiftR | ac_include/ac_int.h:1121-1144 | The result limbs hold floor(x / 2^B) modulo their size for all limb counts and shift counts, by limb or by bit. |
| LimbShifts.ConstShiftL | ac_include/ac_int.h:1083-1114 | The result limbs hold x 2^B modulo their size. |
| LimbShifts.UaddCarry | ac_include/ac_int.h:499-514 | Limbs plus carry out are the old limbs plus the bit added. |
| LimbShifts.EqualFrom | ac_include/ac_int.h:288-313 | True exactly when the arithmetic shift by B leaves -1 (ones) or 0 (zeros). For a negative B the limbs are all equal to it and so are the bits read in front of them, which is outside the array exactly when B < -32. |
| LimbShifts.EqualZerosTo | ac_include/ac_int.h:327-338 | True exactly when the low B bits are all zero, also for B beyond the limbs unless the number is zero; for which numbers limbs behind the array are read. |
| DecimalString.WholeNumber | ac_include/ac_int.h:1219-1250 | The characters written are the decimal notation of the limbs' value at every width, zero included; empty for zero. |
| DecimalString.NotationDenotes | ac_include/ac_int.h:1219-1250 | That notation consists of digits, denotes the number and has no leading zero. |
| DecimalString.Char | ac_include/ac_int.h:1239-1239 | The character written for a digit is its Arabic numeral. |
| DecimalString.Numerals | ac_include/ac_int.h:1239-1239 | Each of the ten numerals stands for its own number. |
| DecimalString.Twelve | ac_include/ac_int.h:1219-1250 | A concrete number: 12 is written "12". |
| DecimalString.NotationUnique | ac_include/ac_int.h:1219-1250 | It is the only digit string without a leading zero that denotes the number. |
| DecimalString.DivideChunk | ac_include/ac_int.h:1222-1231 | One pass leaves the quotient by 10^9 in the limbs and returns the remainder, although q is stored in 32 bits. |
| DecimalString.Fraction | ac_include/ac_int.h:1202-1218 | r is the complete finite expansion of x / 2^W: x 10^|r| = value(r) 2^W exactly, with no trailing zero for a non-zero fraction; a zero fraction of more than 32 bits prints "0". Termination is by exhaustion of the fraction's bits. |
| DecimalString.ExpansionUnique | ac_include/ac_int.h:1202-1218 | A non-zero fraction has only one such expansion. |
| DecimalString.NextFractionDigit | ac_include/ac_int.h:1211-1217 | Ten times the fraction splits exactly into the digit printed and the fraction left, while low limbs that became zero are dropped. |
| DecimalString.LeftJustify | ac_include/ac_int.h:1203-1209 | The shift in place moves the W-bit value to the top of the limbs. |
| FixedPointCores.Div | ac_include/ac_std_float.h:137-152 | For op1 < 2 op2 the non-restoring divider returns floor(op1 2^(W+1) / op2) and exact = no remainder, with the partial remainder kept in [-D, D) so that bit W is its sign in W+2 bits. |
| FixedPointCores.DivSim | ac_include/ac_std_float.h:154-164 | The simulation divider has the same contract, so the synthesis divider refines it. |
| FixedPointCores.NonRestoringLast | ac_include/ac_std_float.h:143-151 | After the last step the remainder is zero exactly when R is 0 or one divisor low, which is what the final test reads. |
| FixedPointCores.Sqrt | ac_include/ac_std_float.h:168-195 | For all W and WR, r^2 <= z < (r+1)^2 for the leading 2 WR bits z of the radicand, and the flag is true exactly when z is not a square. |
| FixedPointCores.SqrtStep | ac_include/ac_std_float.h:180-191 | One turn keeps r^2 + d = leading bits with 0 <= d <= 2r although t wraps: its top bit is its sign, and mask_d never removes a live bit. |
| FixedPointCores.FlagMeaning | ac_include/ac_std_float.h:192-194 | With 2 WR < ZW the flag means "the root is inexact" on a radicand if and only if its leading 2 WR bits are no square or its other bits are all zero; on the others it is false although no root is exact. |
| FixedPointCores.FlagMissed | ac_include/ac_std_float.h:168-195 | A concrete input: W = 4, WR = 1, x = 5 gives root 1 and a false flag, although 5 is no square and no root in those places is exact. |
| FloatFormat.NearestUnique | ac_include/ac_std_float.h:765-848 | Round to nearest, ties to even (section 4.3.1 of IEEE 754-2008), over the finite numbers and infinity, has at most one result for every real number. |
| FloatFormat.PackRounded | ac_include/ac_std_float.h:803-834 | From the kept bits and a sticky bit, rounding and packing give the nearest-even result in each case: carry into the next binade, normal, subnormal, overflow to infinity. |
| FloatFormat.UnitsStep | ac_include/ac_std_float.h:648-663 | The next encoding up has a strictly larger value, across subnormals, binades and infinity. |
| FloatMult.Mult | ac_include/ac_std_float.h:765-848 | On all finite operands the result is the exact product rounded to nearest-even at every width with E >= 3, subnormal operands and results, carries and overflow included. With E = 2 it is so if and only if the operands are not those InfinityTooEarly names (a zero or subnormal times a number of the largest exponent, by the operands' mantissas), and infinite on those. Sign, NaN and infinity cases as section 7.2 of IEEE 754-2008 asks. |
| FloatMult.InfinityTest | ac_include/ac_std_float.h:790-810 | The flag for infinity is set exactly when the rounded exponent is beyond the largest one, or too early in the cases of E = 2. |
| FloatMult.ZeroTimesTwo | ac_include/ac_std_float.h:789-839 | A concrete case: with one mantissa bit and E = 2, zero times 2 is infinite. |
| FloatMult.RoundUnderflow | ac_include/ac_std_float.h:781-842 | The branch that hard-codes a subnormal result is correctly rounded too. |
| FloatMult.UnderflowStaysSubnormal | ac_include/ac_std_float.h:803-842 | In that branch no product, even the largest, rounds up to the smallest normal number. |
| FloatMult.StickyLow | ac_include/ac_std_float.h:787-802 | Masking the product with the shifted mask finds a non-zero bit exactly when the shifted product has one below the kept bits. |
| FloatDiv.Div | ac_include/ac_std_float.h:858-925 | On finite operands and a non-zero divisor the result is the exact quotient rounded to nearest-even through normalisation, the denormalising shift and sticky collection; zero, infinity and NaN cases as in sections 7.2 and 7.3 of IEEE 754-2008. |
| FloatDiv.NormalisedRatio | ac_include/ac_std_float.h:863-886 | The quotient of the normalised mantissas is the exact quotient up to the power of two the exponent accounts for. |
| FloatSqrt.Sqrt | ac_include/ac_std_float.h:1036-1097 | For finite operands that are positive or zero the result is the square root rounded to nearest-even; NaN exactly for NaN and negative non-zero operands. The sign is always positive, so the root of -0 is +0 where section 5.4.1 of IEEE 754-2008 asks for -0. |
| FloatSqrt.RootOfMinusZero | ac_include/ac_std_float.h:1036-1097 | In every format the root of -0 is the encoding of +0. |
| FloatSqrt.NearestRootMeaning | ac_include/ac_std_float.h:1036-1097 | The root-free specification used there says the same as rounding the real square root to nearest-even. |
| FloatSqrt.RootRange | ac_include/ac_std_float.h:1060-1085 | The integer root of a normalised radicand is so far below the next power of two that rounding it up never carries out of the mantissa. |
| FloatSqrt.RootPlaced | ac_include/ac_std_float.h:1045-1085 | The root core applied to the halved exponent lands exactly on the result's last place, with the sticky bit exact, before and after the subnormal shift. |
| FloatConvert.ToAcFloat | ac_include/ac_std_float.h:609-634 | Every finite encoding keeps its numeric value and ends normalised or at the two lowest exponents, except that with E = 2 the subnormal numbers come out four times as large; infinities and NaNs give the extreme number of their sign. |
| FloatConvert.KeepsValue | ac_include/ac_std_float.h:609-634 | The value is kept if and only if the encoding is not a non-zero subnormal of E = 2. |
| FloatConvert.FromAcFloat | ac_include/ac_std_float.h:482-500 | The magnitude is the value cut to the smallest subnormal, plus a hidden bit the mantissa did not have if and only if the mantissa is non-zero and below one in magnitude at an exponent above the two lowest; the most negative number of all becomes the largest finite one. |
| FloatConvert.Unnormalised | ac_include/ac_std_float.h:482-500 | A concrete input for that: in three mantissa bits and E = 3, four units become 36. |
| FloatConvert.RoundTrip | ac_include/ac_std_float.h:482-634 | Converting to ac_float and back reproduces a finite bit pattern other than -0 if and only if it is not a non-zero subnormal of E = 2; negative powers of two included. |
| FixedConvert.Fixed.Convert | ac_include/ac_fixed.h:271-317 | The converting constructor stores what the overflow mode makes of the exact number rounded by the rounding mode, apart from the cases Departs names; for all widths, points, signs, eight Q and four O modes. Where the code reads outside the source's limbs, what it reads decides only what becomes of a zero. |
| FixedConvert.ConvertedExactly | ac_include/ac_fixed.h:271-317 | The stored number equals overflow mode after rounding mode if and only if the input is not one of: a one-bit symmetric target below zero, -1 of a one-bit symmetric source shifted to the minimum, or a rounding carry out of an unsigned source that fills the target's limbs under AC_SAT or AC_SAT_SYM. |
| FixedConvert.ConvertedSettles | ac_include/ac_fixed.h:271-317 | The same in terms of what the modes mean: the stored number is what the overflow mode makes of the one number the rounding mode allows, if and only if the input is not one of those. |
| FixedConvert.OverflowSettles | ac_include/ac_fixed.h:116-159 | Each overflow mode determines exactly one number: one in range stays; otherwise saturation gives a number of the range to which none is nearer, AC_SAT_ZERO gives 0 on either side, AC_WRAP the number in range that differs by a multiple of 2^W. |
| FixedConvert.ClippedSettles | ac_include/ac_fixed.h:116-159 | The bound overflow_adjust stores for a number out of range is what the mode asks for, unless the type is one symmetric bit and the number negative. |
| FixedConvert.SaturationMissed | ac_include/ac_fixed.h:279-310 | A concrete input for the last case: 2^32 - 1/2 (33 unsigned bits) rounded to 31 unsigned saturating bits becomes 0 instead of the maximum. |
| FixedConvert.OneBitTargetMissed | ac_include/ac_fixed.h:308-309 | A concrete input for the first case: -1 into one symmetric bit stores -1 where the modes give 0. |
| FixedConvert.OneBitSourceMissed | ac_include/ac_fixed.h:291-293 | A concrete input for the second: -1 of one symmetric bit into three with two more fraction bits stores -4 where the modes give -3. |
| FixedConvert.MisreadExactly | ac_include/ac_fixed.h:297-306 | Some contents of the memory in front of the source make an overflow of a number exactly when the number is zero, the overflow test is on and F - F2 > 32N + 32. |
| FixedConvert.ZeroSaturates | ac_include/ac_fixed.h:297-306 | Concrete types for that: zero of ac_fixed<8,8> can become 127 in ac_fixed<8,-100,true,AC_TRN,AC_SAT>. |
| FixedConvert.QuantizeRounds | ac_include/ac_fixed.h:161-177 | Each of the eight modes determines exactly one rounded number, described by the error alone (its bound, its sign, the side a tie falls on). |
| FixedConvert.RoundingBitRounds | ac_include/ac_fixed.h:161-177 | Adding the bit quantization_adjust computes from first dropped bit, sticky, sign and parity is that rounding. |
| FixedConvert.RoundConvQuantizes | ac_include/ac_fixed.h:170-171 | The rounding step the float operations rely on is this conversion by AC_RND_CONV. |
| FixedConvert.Fixed.Quantization | ac_include/ac_fixed.h:275-289 | After the first half the limbs hold the rounded number modulo their size, and the carry is exactly what rounding changed above them; for which types and numbers limbs behind the source are read, without effect on the result. |
| FixedConvert.Fixed.DetectOverflow | ac_include/ac_fixed.h:294-309 | neg_src is the rounded number's sign and overflow says exactly whether it is out of range (or the symmetric minimum), from deleted_bits, all_ones and carry; except when the carry is lost or a zero is misread. |
| FixedConvert.Fixed.AboveLimbs | ac_include/ac_fixed.h:296-304 | The source's bits above the target's limbs, with the carry, decide the rounded number's sign and whether those bits are all equal to it. |
| FixedConvert.Fixed.OverflowAdjust | ac_include/ac_fixed.h:116-159 | When overflow is passed the limbs become what the mode makes of any number out of range of that sign (one symmetric bit aside); otherwise, and for AC_WRAP, the low W bits sign-extended. |
| FixedConvert.Fixed.QuantizationAdjust | ac_include/ac_fixed.h:161-177 | Limbs and carry out are the old limbs plus the mode's rounding bit. |
| FixedConvert.UncheckedFits | ac_include/ac_fixed.h:291-293 | When the types switch the overflow test off, no source value can leave the target's range, the AC_SAT_SYM one-bit cases aside. |
| FixedConvert.OverflowTest | ac_include/ac_fixed.h:294-309 | The condition on sign, top bit and deleted bits is true exactly when the number does not fit W bits. |
| LineBuffer.LineBuf.Access | ac_include/ac_buffer_2d.h:68-99 | An access returns the column at its address and then writes the selected rows, by one contract for dual-port and packed single-port memories in raster order. In single-port mode the pixel at an even address is lost when the next line begins before its neighbour is written, and the last word of an odd row is never written. |
| LineBuffer.OddRowLost | ac_include/ac_buffer_2d.h:134-164 | A concrete run: two one-pixel rows in single-port mode; the column read above the second is what the memory held at first, whatever the first row was. |
| LineBuffer.LineBuf.PackedStep | ac_include/ac_buffer_2d.h:135-164 | One single-port access on a packed word reads and, a pixel late, writes what a plain memory would, and leaves the other rows alone. |
| LineBuffer.Buffer2d.Write | ac_include/ac_buffer_2d.h:244-312 | After each write slot k is the pixel k rows above, for all rows reached so far as far as they are kept: in single-port mode a row of odd length loses its last pixel when the next pass begins. A pass that writes nothing shows the same columns again; without rewind its last slot shows the current row. |
| LineBuffer.StoredBegin | ac_include/ac_buffer_2d.h:251-267 | Starting a row in the next ring memory keeps all earlier rows the ring still covers. |
| LineBuffer.StoredGoOn | ac_include/ac_buffer_2d.h:251-267 | So does each further pixel of the row. |
| LineBuffer.ColumnAbove | ac_include/ac_buffer_2d.h:267-305 | The memory k steps back in the ring holds the pixel k rows up, also while the current row overwrites the oldest. |
| LineBuffer.Buffer2d.Arrange | ac_include/ac_buffer_2d.h:272-311 | The rotation by sel puts the ring memories in the order of the rows. |
| Window1d.Window.Write | ac_include/ac_window_1d_flag.h:79-160 | Once ramped up, every slot shows the element of the centre's own line at the plain, clamped or reflected index, for odd and even windows, in runs of lines of any lengths (for mirroring: odd windows, lines longer than half a window). |
| Window1d.Window.ReadFlags | ac_include/ac_window_1d_flag.h:162-172 | The flags read are those of the element at the centre; in an even window the start flag is that of the element before it. |
| WindowLines.ClipSlotIs | ac_include/ac_window_1d_flag.h:108-126 | Repeating neighbours outwards from the centre with the gathered start and end flags is clamping to the centre's line. |
| WindowLines.MirrorLine | ac_include/ac_window_1d_flag.h:128-150 | The two in-place loops reflect the samples in the line's first and last elements. |
| WindowLines.MirrorSlots | ac_include/ac_window_1d_flag.h:128-150 | With lines longer than half a window a window sees at most one start below and one end above its centre, so one mirror point each suffices. |
| WindowLines.EvenMirrorReadsBehind | ac_include/ac_window_1d_flag.h:128-138 | In an even window the lower mirroring loop reads behind the window exactly when a line starts at the centre and none below it. |
| Window2d.Window.Write | ac_include/ac_window_2d_flag.h:186-415 | Over any run of frames of one line length, once begun, slot (j,k) is the pixel of the centre's own frame at row clamp(y+j-h) and column clamp(x+k-w). |
| Window2d.Rows.Write | ac_include/ac_window_2d_flag.h:186-294 | The vertical half keeps the column clipped to the frame of the centre row for every pixel written so far. |
| Window2d.VerticalRight | ac_include/ac_window_2d_flag.h:222-240 | Clipping the line buffer's column with the row flags gives the centre frame's rows, although the current row has not ended. |
| Window2d.FrameRowStable | ac_include/ac_window_2d_flag.h:222-294 | What an earlier pixel shows does not change when later rows arrive or a frame turns out to end. |
| Window2d.ClippedCell | ac_include/ac_window_2d_flag.h:335-353 | Clamping positions in the stream of pixels is clamping columns in the line. |
| Window2d.RampFlags | ac_include/ac_window_2d_flag.h:400-414 | The ramp-up flag turns on exactly when the centre reaches the first pixel of the first row. |
| CowPrograms.Execute | ac_include/mc_container_types.h:110-377 | After any sequence of constructions, copies, assignments, masks, element reads and writes, comparisons, settings of the comparison bounds, and destructions, every read and comparison has given, and every array shows, what the same statements make of independent values, and all counts are exact. |
| CowPrograms.TwoMade | ac_include/mc_container_types.h:196-202 | A program that makes two arrays from elements and compares them shows whether all their elements agree: the bounds of a new array leave none out. |
| CowPrograms.WholeArrays | ac_include/mc_container_types.h:329-360 | Without bounds the comparison is equality of all elements. |
| CowArray.Store.CountIsExact | ac_include/mc_container_types.h:155-159 | Each block's count is the number of live handles that point at it, and is positive. |
| CowArray.Handle.Write | ac_include/mc_container_types.h:435-450 | Only this array changes, at the one index; every other live handle reads as before. |
| CowArray.Handle.Own | ac_include/mc_container_types.h:435-447 | After it the block belongs to this handle alone and holds the same elements; a block that was not shared is kept. |
| CowArray.Handle.Assign | ac_include/mc_container_types.h:242-250 | The array takes the other's value and comparison bounds and shares its block; safe for self-assignment and for handles already sharing. |
| CowArray.Handle.Copy | ac_include/mc_container_types.h:188-191 | The copy shares the block and has the elements and comparison bounds of the original. |
| CowArray.Handle.FromArray | ac_include/mc_container_types.h:196-202 | The new array has the elements given, in a block of its own, and no comparison bounds. |
| CowArray.Handle.Uniform | ac_include/mc_container_types.h:193-194 | All elements of the new array are the one value, and it has no block and no comparison bounds. |
| CowArray.Handle.Mask | ac_include/mc_container_types.h:260-274 | The masked elements replace the old ones in this handle only. |
| CowArray.Handle.AssignArray | ac_include/mc_container_types.h:362-377 | In place when unshared, in a new block otherwise; others keep their values. |
| CowArray.Handle.Release | ac_include/mc_container_types.h:210-210 | The block is freed exactly when its last user lets go. |
| CowArray.Handle.Destroy | ac_include/mc_container_types.h:210-210 | The handle leaves the live ones and the store invariant still holds. |
| CowArray.Handle.Equal | ac_include/mc_container_types.h:329-360 | True exactly when the elements in the bounds are equal, except that two arrays without blocks are compared by their common value even when the bounds are empty. |
| CowArray.EmptyBoundsDiffer | ac_include/mc_container_types.h:329-338 | A concrete case: two arrays without blocks compared from index 1 to 0 are reported different. |
| CsvParser.Parser.FromString | ac_include/csvparser.c:20-56 | The delimiter is a comma by default, the one given otherwise, except that newline, carriage return, NUL and the quote are not accepted. |
| CsvParser.Parser.NextRow | ac_include/csvparser.c:116-223 | On every text that does not end right behind the quote opening a later field, the row, the message and the read position are those of the state-machine specification, which never terminates a field in front of its buffer; the call fails without moving when there is no string or delimiter. |
| CsvParser.ReturnsPassed | ac_include/csvparser.c:176-178 | On every text the outcome, the row and the read position are those of the text without its carriage returns, wherever these stand. |
| CsvParser.AnyField | ac_include/csvparser.c:179-213 | What any field becomes that a delimiter or newline ends, quoted or not: of each run of quotes behind the opening one every second is dropped, a quote at the end is cut off, and the field is inside quotes after an even run. |
| CsvParser.LastField | ac_include/csvparser.c:169-195 | What any field becomes that the text ends, inside quotes or outside; where there is nothing but an opening quote the row is NULL or the buffer is underrun. |
| CsvParser.DosLine | ac_include/csvparser.c:176-178 | A concrete text: a line that ends in carriage return and newline. |
| CsvParser.UnderrunExactly | ac_include/csvparser.c:166-196 | The code writes in front of its field buffer on exactly those texts: but for carriage returns they end right behind the quote that opens a field that is not the row's first. |
| CsvParser.UnderrunInput | ac_include/csvparser.c:179-195 | A concrete text, a,": the terminator's index is -1. |
| CsvParser.Parser.GetRow | ac_include/csvparser.c:101-106 | The first call of a parser with a header line reads two rows and keeps the first, unless that row takes the terminator along. |
| CsvParser.TakesTerminatorExactly | ac_include/csvparser.c:157-220 | A row takes the terminator along, so that the next call reads behind the string, exactly on the texts in which no newline outside quotes ends a row (those apart on which the buffer is underrun). |
| CsvParser.HeaderAlone | ac_include/csvparser.c:101-106 | Concrete texts: nothing at all, and a header row that the string ends. |
| CsvParser.ReadAll | ac_include/csvparser.c:116-223 | Rows printed by section 2 of RFC 4180 with any choice of quoting come back from repeated calls in order, followed by NULL, for every accepted delimiter and with carriage returns put in anywhere. |
| CsvParser.DosRows | ac_include/csvparser.c:176-178 | Rows printed with carriage return and newline at the end of each, as section 2 of RFC 4180 has it, are such texts. |
| CsvParser.RowReadBack | ac_include/csvparser.c:157-220 | A printed row is read back and the parser stops right behind its newline. |
| CsvParser.FieldReadBack | ac_include/csvparser.c:157-220 | A printed field with any run of quotes, delimiters and newlines is read back. |
| CsvParser.QuotedField | ac_include/csvparser.c:179-213 | Inside quotes, doubled quotes become one and nothing ends the field but the closing quote. |
| JpegBits.Encode | ac_include/ccs_jpgfile.cpp:50-92 | For any sequence of write(n, bits) calls and a flush: dropping the byte behind each 0xFF gives the pushed bits MSB first and then fewer than eight ones up to a byte, and every 0xFF is followed by 0x00 (sections B.1.1.5 and F.1.2.3 of ITU-T T.81). |
| JpegBits.JpegFile.Write | ac_include/ccs_jpgfile.cpp:67-92 | The low numbits bits are appended to the bit stream, most significant first. |
| JpegBits.JpegFile.Flush | ac_include/ccs_jpgfile.cpp:50-57 | The last byte is filled with ones, and nothing happens on a byte boundary. |
| JpegBits.UnstuffedStuffed | ac_include/ccs_jpgfile.cpp:80-84 | A decoder that drops the byte behind each 0xFF recovers the data bytes. |
| JpegBits.NoMarkers | ac_include/ccs_jpgfile.cpp:80-84 | No byte of the output can be taken for a marker. |
| PayloadBits.TypeToGp | ac_include/ccs_gp_typeconv.h:53-83 | The payload as a number changes to Written(...): the field at the bit offset is the value, the bits below and the bytes beyond it are as before, the rest of its last byte is cleared. |
| PayloadBits.GpToType | ac_include/ccs_gp_typeconv.h:86-107 | The result is the signed or unsigned number in those bits of the payload. |
| PayloadBits.ReadBack | ac_include/ccs_gp_typeconv.h:53-107 | Reading a field just written returns the original value, and everything below it is unchanged. |
| PayloadBits.AllReadBack | ac_include/ccs_gp_typeconv.h:53-107 | After a list of adjacent fields is written in ascending order each one can be read back, although every write clears bits above itself. |
| PayloadBits.WriteAndRead | ac_include/ccs_gp_typeconv.h:53-107 | Writing any list of adjacent fields with the one byte loop and reading them with the other returns all values, and the payload bits below the list are unchanged. |
| PayloadBits.NextByte | ac_include/ccs_gp_typeconv.h:66-82 | Each byte stored is the right byte of the shifted value over the kept low bits, through the read-modify-write of the first byte and the mask of the last. |

## Left out

- SignedDivision.Remainder: limbs read from behind the numerator are a function handed in, so any contents are covered; that such a read is undefined behaviour of the language is not.
- LongDivision.UDiv: asks for a divisor that is not zero; the deliberate trap on a zero divisor is not modelled.
- FloatMult.Mult: AC_RND_CONV only (the carry test is keyed to that mode); NaN payloads, flush-to-zero and `fma_generic` are not modelled.
- FloatDiv.Div: AC_RND_CONV only, without flush-to-zero and NaN payloads.
- FloatSqrt.Sqrt: AC_RND_CONV only, without flush-to-zero and NaN payloads.
- FloatFormat.PackRounded: the packed word `d` is modelled by its three fields, with the slices written out on them.
- FixedConvert.Fixed.Convert: limbs read outside the source are a function handed in, so any contents are covered; that such a read is undefined behaviour of the language is not. A symmetric source is assumed not to hold the number its type excludes. The numerical-analysis hooks and the conversions from other types are not modelled.
- LineBuffer.LineBuf.Access: single-port memories only for raster scans, in which the two pixels of a word go to the same rows.
- LineBuffer.Buffer2d.Write: slot k is `wout_[k]`, the pixel k rows up; `operator[]` numbers the slots from the other end. What the memories hold before they are written is left open.
- Window1d.Window.Write: mirroring in even windows and of lines no longer than half a window is left out.
- Window2d.Window.Write: odd sizes, clipping mode and frames of one line length, even in single-port mode; `readFlags`, the delayed frame flags, rewind and the windows' other modes are left out. A row of the two-dimensional registers is a sequence, and the vertical half of the object is an object of its own.
- CowArray.Handle.Write: the reference `operator[]` returns is used at once; keeping it across other statements would break value semantics in the code too.
- CowArray.Store.CountIsExact: stated for live handles of one store; the explicit conversions between element types, `copy_to` and the checks of `mc_testbench_process_array_bounds` are left out.
- CsvParser.Parser.NextRow: string mode, on texts that do not make the code write in front of its buffer, while the terminator has not been read. The allocation and growth of rows and fields is not modelled.
- CsvParser.ReadAll: fields without carriage returns, which the parser drops even inside quotes, and without NUL; rows are not empty and end in a newline.
- DecimalString.WholeNumber: the character buffer's capacity and the terminating NUL; signs, the other bases and the placing of the point in `to_string`.
- JpegBits.Encode: the Huffman and quantisation tables, the headers and the file; an output sequence stands for it. A code has 1 to 32 bits, since a shift by 32 is undefined.
- PayloadBits.TypeToGp: the payload is a byte array; the `ac_fixed`, `ac_float` and built-in overloads are left out.
- `iv_add`, `iv_sub`, `iv_compare`, the variable shifts and the bitwise operators: they would only add simpler members of the same kind.
- SystemC and TLM modules, Matlab and image files, conversions through C `float` and `double`, result-type templates: plumbing, foreign calls or no behaviour to state.
