# onbloc packages: arithmetic, codecs, channel paths and access control

A Dafny model of the arithmetic, codec and access control packages under `gno.land/p/onbloc`, of the
paths, scaling, salts and commitments of its IBC packages, and of two of the tools that prepare their
data, with proofs of what they promise.

- **256-bit arithmetic** (`Words` to `FullMath`, `Decimals`, `Conversion`). Numbers are arrays of four
  64-bit words; every method works on the words as the code does, with the carries, borrows and
  wrap-around of `math/bits`, and is proved against one line of integer arithmetic. This covers
  Algorithm D of Knuth (The Art of Computer Programming, volume 2, section 4.3.1) on top of the
  two-by-one division of Möller and Granlund (Improved division by invariant integers, algorithm 4),
  the Newton iterations for the reciprocal of a modulus, Barrett reduction (Handbook of Applied
  Cryptography, algorithm 14.42), multiplication and division with a 512-bit intermediate product,
  printing and parsing, and all shifts.
- **ABI codec** (`AbiTypes`, `AbiEncode`, `AbiDecode`, `AbiShape`, `AbiRoundTrip`, `AbiInjective`,
  `AbiReference`, `AbiMeaning`). Encoding and decoding by an arbitrary schema tree as in the Solidity
  Contract ABI Specification. `AbiReference` says with numbers what it means that values stand in some
  data, and that the decoder returns values exactly when they do; `AbiMeaning` says what the encoder writes.
- **RLP codec** (`RlpEncode`, `RlpDecode`, `RlpRoundTrip`). Appendix B of the Ethereum Yellow Paper.
- **Commitments** (`Commitments`). The preimages of packet, acknowledgement and salt hashes, word by word.
- **Channel paths and scaling** (`ChannelPath`, `Scale`). A number read as a list of channel ids.
- **Access manager** (`Delays`, `Manager`, `ManagerRuns`, `ManagerLaws`, `AccessState`). A state machine
  over roles, members, delays and targets; the classes of `AccessState` are updated in place and follow
  it, `ManagerRuns` proves what every run of it keeps, and `ManagerLaws` what can be read after a run. A
  panic is an operation that is refused and changes nothing.
- **Topological sort** (`Ordering`, `TopoSort`, `TopoOrder`) and **Merkle proofs** (`Protobuf`,
  `MerkleTree`, `Merkle`, `Neighbours`). `TopoOrder` fixes the order without its queue, and `MerkleTree` the
  root and the proofs over the leaf hashes alone.

Findings about the code:

- The remainder of `DivMod` is lost when the receiver is the dividend x and 0 < x < y
  (`Uint256.DivMod`, with an input in `Uint256.RemainderLost`).
- The reciprocal of a modulus m whose top word is one can be two below floor(2^512 / m), and never more.
  The contract of `Reciprocals.Reciprocal` says for which m (`ByResidues`), in terms of a = 2^383 % m and
  b = 2^511 % m, which a caller can compute. It happens only if b < 25 * 2^127, and only if b * 2^255 < a^2
  unless a < 2^139; it does happen if b * 2^255 < a^2 - 3 * 2^191 * m and a + 12 * 2^64 < m. In the gap
  between the two bounds what the fourth iteration drops decides, and for extreme a the rounding of the
  third iteration does; there the rule is one way. `ReciprocalGap.ReciprocalOfN` is an input that the
  residues decide and `ReciprocalGap.ReciprocalOfM` one where they do not. The contract of
  `Barrett.Reduce4` is wide enough, so modular multiplication is exact for every modulus. The comment
  above `reduce4` asks for a top word above one; the code calls it with one as well.
- The ABI decoder refuses some encodings of schemas with structs without fields; `AbiRoundTrip.RoundTrip`
  says exactly which.
- The comment of `GetChannelFromPath` promises zero for every index outside the path. From 2^59 on the
  slot's position wraps around; the contract of `ChannelPath.GetChannelFromPath` says exactly when the
  result is zero, and `ChannelPath.WrappedIndex` is an input for which it is not.
- For a string that is too long or too large in string order, `SetFromDecimal` returns the range error
  even when it is not all digits; its contract says exactly when, and `Conversion.LettersOutOfRange` is
  such an input.

A loop that the code writes inline is a method of its own here where that keeps its proof small, and
four-word values that Go copies are fresh arrays or sequences. Where a function is given in two forms,
as a method with the code's loops and as a function, the method is proved equal to the function.

## Model

| member | source | states |
|---|---|---|
| Division.Reciprocal2by1 | gno.land/p/onbloc/math/uint256/arithmetic.gno:422-425 | for every word with its top bit set, the word that Möller and Granlund's division works with: floor((2^128 - 1) / d) - 2^64 |
| Division.CandidateRemainder | gno.land/p/onbloc/math/uint256/arithmetic.gno:431-450 | Möller and Granlund's bound: the candidate quotient, taken one up, leaves a remainder between max(-d, q0 - 2^64) and max(2^64 - d, q0) |
| Division.UDivRem2by1 | gno.land/p/onbloc/math/uint256/arithmetic.gno:431-450 | the exact quotient and remainder of (uh * 2^64 + ul) / d for every normalised d and every uh below d, though every intermediate value wraps |
| Division.UDivRemBy1 | gno.land/p/onbloc/math/uint256/arithmetic.gno:339-346 | a number of any length divided by one normalised word: u = quot * d + rem with rem below d, the words of quot above untouched |
| Division.SubMulTo | gno.land/p/onbloc/math/uint256/arithmetic.gno:409-419 | a window of x less y times a word, with the exact borrow, and nothing outside the window changed |
| Division.AddTo | gno.land/p/onbloc/math/uint256/arithmetic.gno:399-405 | a window of x plus y, with the exact carry, and nothing outside the window changed |
| Division.EstimateDigit | gno.land/p/onbloc/math/uint256/arithmetic.gno:362-373 | the trial digit against the top two and three words: at most one too large, never too small, also when the first word of the window has reached that of the divisor and the digit is 2^64 - 1 |
| Division.DigitBounds | gno.land/p/onbloc/math/uint256/arithmetic.gno:362-373 | bounds that hold for the top words hold for the whole window and the whole divisor |
| Division.SubtractedDigit | gno.land/p/onbloc/math/uint256/arithmetic.gno:376-381 | the top word of the window tells whether too much was subtracted, and then exactly one divisor too much |
| Division.SubtractDigit | gno.land/p/onbloc/math/uint256/arithmetic.gno:376-381 | after at most one step of adding back, the window is the digit times the divisor plus a remainder below the divisor |
| Division.KnuthRound | gno.land/p/onbloc/math/uint256/arithmetic.gno:357-384 | one round of Algorithm D leaves digit and remainder, the top word of the window zero, and all other words alone |
| Division.UDivRemKnuth | gno.land/p/onbloc/math/uint256/arithmetic.gno:351-385 | Algorithm D: u = quot * d + rem with rem below d, for a normalised divisor of two words or more |
| LongDivision.Normalised | gno.land/p/onbloc/math/uint256/arithmetic.gno:226-232 | the shift by the leading zeros of the top word loses nothing and brings its top bit up; a shift by 64 - 0 brings in nothing |
| LongDivision.ShiftedBack | gno.land/p/onbloc/math/uint256/arithmetic.gno:249-269 | the quotient of the shifted numbers is the quotient, and the remainder shifted back is the remainder |
| LongDivision.UDivRem | gno.land/p/onbloc/math/uint256/arithmetic.gno:217-270 | for every dividend of up to eight words, every non-zero divisor of up to four, and a zeroed quotient that is long enough: u = quot * d + rem with rem below d |
| Multiply.UMul | gno.land/p/onbloc/math/uint256/arithmetic.gno:273-307 | all eight words of the product of two four-word numbers, also where leading zero words are skipped |
| Multiply.UMulHop | gno.land/p/onbloc/math/uint256/arithmetic.gno:330-335 | z + x * y in two words |
| Multiply.UMulStep | gno.land/p/onbloc/math/uint256/arithmetic.gno:320-327 | z + x * y + carry in two words |
| Multiply.Mul | gno.land/p/onbloc/math/uint256/arithmetic.gno:55-77 | the unrolled product is x * y modulo 2^256, whichever arguments are the same object |
| Uint256.MulOverflow | gno.land/p/onbloc/math/uint256/arithmetic.gno:80-84 | overflow is reported exactly when x * y reaches 2^256, and the result is the product modulo 2^256 |
| Uint256.AddOverflow | gno.land/p/onbloc/math/uint256/arithmetic.gno:20-27 | overflow is reported exactly when x + y reaches 2^256, and the result is the sum modulo 2^256 |
| Uint256.BorrowChain | gno.land/p/onbloc/math/uint256/cmp.gno:10-23 | the borrow left by the four subtractions says exactly whether z is below x |
| Uint256.Cmp | gno.land/p/onbloc/math/uint256/cmp.gno:10-23 | -1, 0 or 1 as z is below, equal to or above x |
| Uint256.Lt | gno.land/p/onbloc/math/uint256/cmp.gno:43-51 | true exactly when z is below x |
| Uint256.Eq | gno.land/p/onbloc/math/uint256/cmp.gno:69-71 | true exactly when the numbers are equal, which is when the words are |
| Uint256.IsUint64 | gno.land/p/onbloc/math/uint256/conversion.gno:33-35 | true exactly for numbers below 2^64, whose lowest word is then the number |
| Uint256.Div | gno.land/p/onbloc/math/uint256/arithmetic.gno:88-109 | panics exactly for a zero divisor; otherwise the floor of x / y through every shortcut, whichever arguments are the same object |
| Uint256.Mod | gno.land/p/onbloc/math/uint256/arithmetic.gno:113-143 | panics exactly for a zero divisor; otherwise x modulo y |
| Uint256.DivMod | gno.land/p/onbloc/math/uint256/arithmetic.gno:182-211 | quotient and remainder; the remainder comes out as zero when z is x itself and x < y, since the code clears z before it copies x, so it is wrong exactly when also 0 < x |
| Uint256.RemainderLost | gno.land/p/onbloc/math/uint256/arithmetic.gno:187-190 | 1 by 2 with the quotient in place of the dividend gives the remainder 0 |
| Reciprocals.Reciprocal | gno.land/p/onbloc/math/uint256/mod.gno:15-417 | zero for a modulus without a top word; otherwise floor(2^512 / m) or at most two less, and at most one less unless the top word is one; unless m is a power of two, what the iterations compute from the shifted modulus; and for a top word of one, with a = 2^383 % m and b = 2^511 % m: two below implies b < 25 * 2^127, and b * 2^255 < a^2 when a is 2^139 or more; and b * 2^255 < a^2 - 3 * 2^191 * m with a + 12 * 2^64 < m implies two below |
| Reciprocals.PowerOfTwoReciprocal | gno.land/p/onbloc/math/uint256/mod.gno:19-37 | the test finds exactly the powers of two, and their reciprocal is 2^512 / m - 1 |
| Reciprocals.ReciprocalRange | gno.land/p/onbloc/math/uint256/mod.gno:15-417 | the product form of the contract and the range floor(2^512 / m) - 2 to floor(2^512 / m) are the same |
| Newton.NewtonStep | gno.land/p/onbloc/math/uint256/mod.gno:58-279 | each iteration turns an error e of the estimate into e^2 less what the truncated products leave out |
| Newton.FirstError | gno.land/p/onbloc/math/uint256/mod.gno:48-56 | the 32-bit estimate is off by at most 2^256 / y units |
| Newton.FirstIteration | gno.land/p/onbloc/math/uint256/mod.gno:58-70 | the 64-bit estimate of 2^319 / y with its error and its exact value, saturated exactly when that would be 2^64, which is for the least y3 |
| Newton.FirstExactError | gno.land/p/onbloc/math/uint256/mod.gno:48-70 | the error of that estimate from y alone, capped when it would be 2^64, which happens exactly for the least y3 |
| Newton.SecondProduct | gno.land/p/onbloc/math/uint256/mod.gno:74-89 | the upper two words of r1^2 times the upper half of y, rounded down exactly, without the lowest product |
| Newton.SecondLargest | gno.land/p/onbloc/math/uint256/mod.gno:91-102 | with the largest estimate the doubled difference overflows only when the upper half of y is 2^127, the case the saturation is for |
| Newton.SecondExactError | gno.land/p/onbloc/math/uint256/mod.gno:72-102 | the error of the 128-bit estimate of 2^383 / y, capped when it would be 2^128, which happens only for the least y3 |
| Newton.SecondIteration | gno.land/p/onbloc/math/uint256/mod.gno:72-102 | the words of that estimate are computed exactly, saturated exactly when it would be 2^128 |
| NewtonWide.ThirdDropped | gno.land/p/onbloc/math/uint256/mod.gno:119-171 | the low products the third iteration never forms add up to less than 6 * 2^192 |
| NewtonWide.ThirdError | gno.land/p/onbloc/math/uint256/mod.gno:104-183 | the 192-bit estimate is less than three units below 2^447 / y, next to nothing above it, and fits three words |
| NewtonWide.FourthDropped | gno.land/p/onbloc/math/uint256/mod.gno:212-270 | the low products the fourth iteration never forms add up to less than 3 * 2^256 |
| NewtonWide.FourthError | gno.land/p/onbloc/math/uint256/mod.gno:185-279 | the 320-bit candidate for 2^574 / y is less than one unit too large and less than one and a half too small, and fits five words |
| NewtonWide.FullProduct | gno.land/p/onbloc/math/uint256/mod.gno:281-353 | the nine words of the candidate times y are the exact product |
| NewtonWide.Adjusted | gno.land/p/onbloc/math/uint256/mod.gno:281-378 | one conditional decrement makes the candidate at most 2^574 / y and keeps it within one and a half |
| Reciprocals.Aligned | gno.land/p/onbloc/math/uint256/mod.gno:380-416 | the doubling or the shift brings the candidate to the scale of 2^512 / m |
| Shortfall.ThirdWindow | gno.land/p/onbloc/math/uint256/mod.gno:104-183 | the third estimate, wherever it lies in its window, has an error of at most twice y and next to nothing more |
| Shortfall.FourthWindow | gno.land/p/onbloc/math/uint256/mod.gno:185-279 | 2^320 times the error of the candidate is the square of the third error less y times what is dropped and cut off |
| Shortfall.ReachesDivisor | gno.land/p/onbloc/math/uint256/mod.gno:185-378 | the candidate is short by a whole y only if what 2^574 leaves is below the square of the third error in scale, and always if it is so by a margin of 3 * 2^256 * y |
| Shortfall.ShortfallWords | gno.land/p/onbloc/math/uint256/mod.gno:39-378 | the same for the adjusted candidate, with the residue of 2^447 modulo 2y for the third error |
| Reciprocals.TwoBelowResidues | gno.land/p/onbloc/math/uint256/mod.gno:39-416 | what the shortfall of the candidate, in terms of 2^447 and 2^574, makes of the result, in terms of 2^383 % m and 2^511 % m |
| NewtonWide.StepWindow | gno.land/p/onbloc/math/uint256/mod.gno:104-279 | what a wide iteration drops and cuts off leaves its result determined up to a window of its last bit |
| ReciprocalGap.ThirdWords | gno.land/p/onbloc/math/uint256/mod.gno:104-183 | for y = 2^256 - 2^97 the third iteration can give one estimate only |
| ReciprocalGap.FourthWords | gno.land/p/onbloc/math/uint256/mod.gno:185-279 | and the fourth one candidate only |
| ReciprocalGap.ReciprocalOfM | gno.land/p/onbloc/math/uint256/mod.gno:15-417 | evaluated at m = 2^193 - 2^34, the reciprocal is two below floor(2^512 / m) |
| ReciprocalGap.ForcedAtN | gno.land/p/onbloc/math/uint256/mod.gno:39-416 | the residues of one modulus force the shortfall, without evaluating the iterations |
| ReciprocalGap.ReciprocalOfN | gno.land/p/onbloc/math/uint256/mod.gno:15-417 | and the reciprocal of that modulus is two below floor(2^512 / m) |
| Barrett.QuotientRows | gno.land/p/onbloc/math/uint256/mod.gno:434-509 | the words of the estimated quotient are exactly the kept partial products over 2^320 |
| Barrett.DroppedColumns | gno.land/p/onbloc/math/uint256/mod.gno:434-509 | what the quotient estimate leaves out is less than 8 * 2^256 |
| Barrett.LowFiveWords | gno.land/p/onbloc/math/uint256/mod.gno:519-561 | the five words kept of q * m are q * m modulo 2^320 |
| Barrett.Reduce4 | gno.land/p/onbloc/math/uint256/mod.gno:422-605 | for every 512-bit x, every m with a non-zero top word and every reciprocal in the range, the loop ends and the result is exactly x modulo m |
| Barrett.MulMod | gno.land/p/onbloc/math/uint256/arithmetic.gno:147-178 | panics exactly for a zero modulus; otherwise exactly x * y modulo m, for all x, y and m and whichever arguments are the same object |
| FullMath.QuotientOverflow | gno.land/p/onbloc/math/uint256/fullmath.gno:43-53 | the quotient of a 512-bit number leaves 256 bits exactly when its upper half reaches the denominator |
| FullMath.WideQuotient | gno.land/p/onbloc/math/uint256/fullmath.gno:55-66 | once that is ruled out, the upper four words of the quotient are zero, so the second overflow check never fires |
| FullMath.MulDiv | gno.land/p/onbloc/math/uint256/fullmath.gno:29-67 | panics exactly when the denominator is zero or floor(a * b / d) reaches 2^256; otherwise returns exactly that floor |
| FullMath.MulDivRoundingUp | gno.land/p/onbloc/math/uint256/fullmath.gno:71-88 | panics exactly when the denominator is zero or the ceiling reaches 2^256; otherwise returns exactly ceil(a * b / d) |
| FullMath.DivRoundingUp | gno.land/p/onbloc/math/uint256/fullmath.gno:92-104 | panics exactly for a zero divisor; otherwise exactly ceil(x / y), which never overflows |
| Decimals.DecimalRoundTrip | gno.land/p/onbloc/math/uint256/conversion.gno:38-97 | the decimal form of a number stands for that number |
| Decimals.DecimalUnique | gno.land/p/onbloc/math/uint256/conversion.gno:38-97 | a digit string without leading zero is the decimal form of its value, so the printed form is the only one of its kind |
| Decimals.DecimalSplit | gno.land/p/onbloc/math/uint256/conversion.gno:80-94 | the decimal form of q * 10^n + r is that of q followed by r padded to n digits |
| Conversion.Dec | gno.land/p/onbloc/math/uint256/conversion.gno:38-97 | every 256-bit number is printed in decimal without leading zeros, within the buffer of 98 bytes |
| Conversion.Multiplier | gno.land/p/onbloc/math/uint256/uint256.gno:127-133 | the table entries are 10^19, 10^38, 10^57 and 10^76 |
| Conversion.AddChunk | gno.land/p/onbloc/math/uint256/uint256.gno:169-185 | a chunk times its power of ten is added exactly, and overflow is reported exactly when the sum reaches 2^256 |
| Conversion.FromDecimal | gno.land/p/onbloc/math/uint256/uint256.gno:137-192 | accepts exactly the digit strings of at most 78 characters with a value below 2^256, and sets that value; the range error is for digit strings from 2^256 on, the syntax error for anything that is not all digits |
| Conversion.LexIsNumeric | gno.land/p/onbloc/math/uint256/uint256.gno:93-103 | among digit strings of one length the order of strings is the order of numbers |
| Conversion.SetFromDecimal | gno.land/p/onbloc/math/uint256/uint256.gno:73-104 | accepts exactly digit strings with value below 2^256 behind at most one plus sign, and sets that value; an empty rest is the end-of-file error; without leading zeros, more than 78 characters, or 78 that are in string order above the maximum, are the range error, digits or not; any other refusal is the syntax error and means that not all are digits |
| Conversion.LettersOutOfRange | gno.land/p/onbloc/math/uint256/uint256.gno:93-103 | 79 letters are refused with the range error |
| Conversion.PrintThenParse | gno.land/p/onbloc/math/uint256/uint256.gno:73-104 | the parser accepts every printed number and gives it back |
| Conversion.ParseThenPrint | gno.land/p/onbloc/math/uint256/conversion.gno:38-97 | printing a parsed string gives the string back exactly when it has no plus sign and no leading zero |
| Bitwise256.FourGates | gno.land/p/onbloc/math/uint256/bitwise.gno:7-37 | a gate applied word by word is the gate applied bit by bit to the numbers |
| Bits.BitwiseBit | gno.land/p/onbloc/math/uint256/bitwise.gno:7-37 | bit i of the result is the gate applied to bits i of the arguments, read by division |
| Bitwise256.OrInto | gno.land/p/onbloc/math/uint256/bitwise.gno:7-13 | the bitwise or of the numbers |
| Bitwise256.AndInto | gno.land/p/onbloc/math/uint256/bitwise.gno:16-22 | the bitwise and of the numbers |
| Bitwise256.AndNotInto | gno.land/p/onbloc/math/uint256/bitwise.gno:31-37 | the bits of x that y does not have |
| Bitwise256.Lsh | gno.land/p/onbloc/math/uint256/bitwise.gno:50-114 | x * 2^n modulo 2^256 for every n, through the ladder entered at any word |
| Bitwise256.Rsh | gno.land/p/onbloc/math/uint256/bitwise.gno:118-172 | floor(x / 2^n) for every n |
| Bitwise256.SRsh | gno.land/p/onbloc/math/uint256/bitwise.gno:177-231 | for every n: the floor for a number below 2^255, and above it the floor of the number read as two's complement |
| ChannelPath.IdsOfPath | gno.land/p/onbloc/ibc/union/zkgm/path.gno:16-24 | a list of ids with a non-zero last one is read back from the number it makes |
| ChannelPath.HopCount | gno.land/p/onbloc/ibc/union/zkgm/path.gno:101-107 | the number of ids of any path, canonical or not |
| ChannelPath.DequeueChannelFromPath | gno.land/p/onbloc/ibc/union/zkgm/path.gno:33-42 | takes off the first id of any non-empty path; an empty one gives id zero |
| ChannelPath.PopChannelFromPath | gno.land/p/onbloc/ibc/union/zkgm/path.gno:49-61 | takes off the last id, which is never zero; on a canonical path exactly the other ids are left |
| ChannelPath.GetChannelFromPath | gno.land/p/onbloc/ibc/union/zkgm/path.gno:88-97 | the id at an index; outside the path the result is zero exactly when the slot `index % 2^59` is outside it too or empty, so always below 2^59 |
| ChannelPath.WrappedIndex | gno.land/p/onbloc/ibc/union/zkgm/path.gno:88-97 | of the path with the single id 1, index 2^59 gives 1 |
| ChannelPath.UpdateChannelPath | gno.land/p/onbloc/ibc/union/zkgm/path.gno:69-82 | appends a non-zero id and fails exactly on a path of eight hops |
| ChannelPath.MakePathFromChannel | gno.land/p/onbloc/ibc/union/zkgm/path.gno:124-130 | the path with one id in one slot, and zero when the slot is outside the path, for every index; from 2^59 on the index wraps around |
| ChannelPath.IsCanonicalPath | gno.land/p/onbloc/ibc/union/zkgm/path.gno:110-119 | true exactly when no id of the path is zero |
| ChannelPath.ReverseChannelPath | gno.land/p/onbloc/ibc/union/zkgm/path.gno:139-167 | reverses the ids of a canonical path and refuses any other; the errors for a full path are never returned |
| ChannelPath.ReversedTwice | gno.land/p/onbloc/ibc/union/zkgm/path.gno:132-167 | reversal undoes itself and keeps a path canonical |
| ChannelPath.ReversedAt | gno.land/p/onbloc/ibc/union/zkgm/path.gno:132-167 | id k of the reversed list is id k of the list counted from its end |
| ChannelPath.AppendPop | gno.land/p/onbloc/ibc/union/zkgm/path.gno:49-82 | a path with a non-zero id appended holds exactly those ids, its last id is that one, and what popping leaves is the path before |
| ChannelPath.PrependDequeue | gno.land/p/onbloc/ibc/union/zkgm/path.gno:33-42 | of a path with a non-zero id in front, dequeuing takes off that id and leaves the path before |
| Scale.PowerOfTen | gno.land/p/onbloc/ibc/union/zkgm/scale.gno:25-43 | 10^e for 0 <= e <= 77, zero below, and the overflow error exactly from 78 on |
| Scale.ScaleDownToInt64 | gno.land/p/onbloc/ibc/union/zkgm/scale.gno:48-71 | returns q without error exactly when q fits an int64 and amount = q * 10^e with e <= 77, an e of zero or below counting as zero; each error exactly in its case |
| AbiEncode.EncodeTuple | gno.land/p/onbloc/encoding/abi/encode.gno:14-56 | the two loops build exactly the heads and tails of the specification, or return the first error |
| AbiEncode.EncodeArray | gno.land/p/onbloc/encoding/abi/encode.gno:160-197 | an array is its length word and its elements laid out like a tuple |
| AbiEncode.EncodeValue | gno.land/p/onbloc/encoding/abi/encode.gno:58-158 | every type of value is encoded, or refused, as specified; what follows the data of a string of bytes is zero up to the next whole word |
| AbiMeaning.BytesMeaning | gno.land/p/onbloc/encoding/abi/encode.gno:199-206 | bytes and strings are their length as a number, the data, and zeros up to the next multiple of 32, and nothing else |
| AbiMeaning.ElementaryMeaning | gno.land/p/onbloc/encoding/abi/encode.gno:58-158 | a value of an elementary type is one word: the number itself in 256 bits, a flag as 1 or 0, an address as the number of its 20 bytes, 32 bytes as they are |
| AbiMeaning.WhatIsDynamic | gno.land/p/onbloc/encoding/abi/encode.gno:232-251 | bytes, strings and arrays are dynamic, a struct exactly when one of its fields is, and nothing else |
| AbiMeaning.ArrayIsTuple | gno.land/p/onbloc/encoding/abi/encode.gno:160-197 | an array is its length in front of the tuple of its elements, all of one type |
| AbiMeaning.ArrayLayout | gno.land/p/onbloc/encoding/abi/encode.gno:160-197 | element i of an array stands behind the elements before it, or where its offset says, counted from behind the length; nothing else is in it |
| AbiMeaning.TupleLength | gno.land/p/onbloc/encoding/abi/encode.gno:14-56 | nothing stands in a tuple but its heads and tails |
| AbiMeaning.Refused | gno.land/p/onbloc/encoding/abi/encode.gno:58-158 | an unknown type, a struct without schema or array without element type, and a value that does not fit each have their error |
| AbiMeaning.TupleRefused | gno.land/p/onbloc/encoding/abi/encode.gno:14-56 | a tuple is refused for the number of its values, or else with the error of the first value that is refused |
| AbiShape.TupleLayout | gno.land/p/onbloc/encoding/abi/encode.gno:14-56 | head i stands after the heads before it; that of a dynamic field is the distance from the start of the tuple to its encoding in the tail |
| AbiShape.EncodingLength | gno.land/p/onbloc/encoding/abi/encode.gno:253-278 | every encoding is a multiple of 32 bytes, and a static one has exactly the length staticHeadSize gives |
| AbiRoundTrip.EncodesConforming | gno.land/p/onbloc/encoding/abi/encode.gno:10-158 | the encoder succeeds exactly for values that match the schema |
| AbiDecode.BytesAt | gno.land/p/onbloc/encoding/abi/decode.gno:250-272 | bytes that are returned lie inside the data, also where rounding up wraps around |
| AbiDecode.DecodeTuple | gno.land/p/onbloc/encoding/abi/decode.gno:25-86 | the loop with its cursor decodes as specified, and ends for every schema and every input |
| AbiDecode.DecodeArray | gno.land/p/onbloc/encoding/abi/decode.gno:182-248 | an array is decoded as specified, and ends for every schema and every input |
| AbiDecode.Decode | gno.land/p/onbloc/encoding/abi/decode.gno:10-18 | the decoder as a whole, from the multiple-of-32 check on |
| AbiReference.DecodedStands | gno.land/p/onbloc/encoding/abi/decode.gno:10-294 | for every schema and all bytes: the decoder returns values if and only if the data is whole words in which those values stand by the specification, words read as numbers, offsets followed from the start of their tuple, at most 256 levels deep |
| AbiReference.ValueReads | gno.land/p/onbloc/encoding/abi/decode.gno:88-248 | the same for one value of any type at any position and depth |
| AbiRoundTrip.ValueBack | gno.land/p/onbloc/encoding/abi/decode.gno:88-180 | an encoding found anywhere in the data is decoded to its value, or to the depth error when it is nested too deeply; it is refused exactly when a struct without bytes stands at the end of the data or is the element of an array |
| AbiRoundTrip.RoundTrip | gno.land/p/onbloc/encoding/abi/decode.gno:10-294 | for every schema and all values: decoding an encoding gives the values back if and only if no struct without bytes stands at its end or is the element of an array, and the values are at most 256 levels deep |
| AbiRoundTrip.PlainRoundTrip | gno.land/p/onbloc/encoding/abi/decode.gno:10-294 | when every struct of the schema has a field, decoding an encoding gives exactly the values back, or exactly the depth error beyond 256 levels |
| AbiRoundTrip.FirstField | gno.land/p/onbloc/encoding/abi/decode.gno:36-83 | a field whose head and tail are in place is decoded from its head, or through the offset there |
| AbiInjective.EncodingInjective | gno.land/p/onbloc/encoding/abi/encode.gno:10-56 | different values never have the same encoding, whatever the schema and however deeply nested |
| AbiRoundTrip.DecodedConforms | gno.land/p/onbloc/encoding/abi/decode.gno:10-294 | whatever the bytes, values that are returned match the schema in shape and range, are at most 256 deep, are taken by the encoder, and come back from their encoding if it does not end in a struct without bytes |
| AbiRoundTrip.ZeroWidthArray | gno.land/p/onbloc/encoding/abi/decode.gno:231-246 | an array whose elements take no bytes is encoded but never decoded |
| AbiRoundTrip.TrailingEmptyStruct | gno.land/p/onbloc/encoding/abi/decode.gno:116-119 | a tuple of static fields whose last field takes no bytes is encoded but refused when decoded, whatever its values |
| RlpEncode.AppendBigEndianUint | gno.land/p/onbloc/encoding/rlp/encode.gno:61-67 | appends the n low bytes of x, most significant first |
| Bytes.BigEndianDigit | gno.land/p/onbloc/encoding/rlp/encode.gno:61-67 | byte i of n is the digit v / 256^(n - 1 - i) % 256 |
| RlpEncode.AppendHeader | gno.land/p/onbloc/encoding/rlp/encode.gno:49-58 | appends the tag of a string or list of any size |
| RlpEncode.EncodeBytes | gno.land/p/onbloc/encoding/rlp/encode.gno:4-34 | a byte below 0x80 as itself, anything else behind a string tag |
| RlpEncode.EncodeList | gno.land/p/onbloc/encoding/rlp/encode.gno:10-24 | the concatenated items behind a list tag |
| RlpEncode.SizesAreExact | gno.land/p/onbloc/encoding/rlp/encode.gno:36-75 | the sizes buffers are allocated with are the lengths written |
| RlpEncode.IntSizeBounds | gno.land/p/onbloc/encoding/rlp/encode.gno:77-96 | intSize is the least number of bytes that holds a size |
| RlpDecode.ReadSizeBytes | gno.land/p/onbloc/encoding/rlp/decode.gno:104-127 | the size gathered by shifts in a uint64 is the big-endian number, with every error in its case |
| RlpDecode.DecodeItem | gno.land/p/onbloc/encoding/rlp/decode.gno:28-55 | the loop over a list's content decodes as specified, and ends for every input |
| RlpDecode.DecodeValue | gno.land/p/onbloc/encoding/rlp/decode.gno:4-15 | one item and nothing after it |
| RlpRoundTrip.ReadSizeExact | gno.land/p/onbloc/encoding/rlp/decode.gno:104-127 | a long size is accepted exactly in its shortest form, from 56 to the largest int |
| RlpRoundTrip.TagRead | gno.land/p/onbloc/encoding/rlp/decode.gno:17-102 | the tag the encoder writes is read back with its content and what follows |
| RlpRoundTrip.TagWritten | gno.land/p/onbloc/encoding/rlp/decode.gno:57-102 | every tag that is accepted is the one the encoder writes |
| RlpRoundTrip.ItemBack | gno.land/p/onbloc/encoding/rlp/decode.gno:28-55 | an encoded item is decoded to itself in front of any bytes, or to the depth error, for every limit on the depth |
| RlpRoundTrip.ItemWritten | gno.land/p/onbloc/encoding/rlp/decode.gno:28-55 | whatever is accepted is byte for byte the encoding of the result |
| RlpRoundTrip.Bijection | gno.land/p/onbloc/encoding/rlp/decode.gno:4-127 | the decoder returns v exactly for the encoding of v, for v canonical and at most 256 lists deep |
| RlpRoundTrip.EncodingForm | gno.land/p/onbloc/encoding/rlp/encode.gno:4-58 | the encoding of an item as in the Yellow Paper: a byte below 0x80 alone, else a tag whose size, up to 55, is in the tag itself, or stands behind it as the shortest big-endian number, and then the string or the encoded items one after the other |
| RlpRoundTrip.TooDeep | gno.land/p/onbloc/encoding/rlp/decode.gno:28-31 | an item nested deeper is refused with the depth error |
| RlpRoundTrip.PrefixFree | gno.land/p/onbloc/encoding/rlp/encode.gno:4-24 | no item's encoding is the start of another's, however deeply nested |
| Commitments.EncodePacket | gno.land/p/onbloc/ibc/union/types/packet.gno:32-53 | a packet is the ABI tuple of its channels, data, a zero and its timeout timestamp; read as numbers, the words are the source channel, the destination channel, the distance 160, zero and the timestamp, and behind them stand the length of the data, the data and zeros |
| Commitments.PacketBytes | gno.land/p/onbloc/ibc/union/types/packet.gno:32-53 | every packet encodes, and source and destination channel, the zero, the timestamp and the data each stand at their own position |
| Commitments.EncodeBytes | gno.land/p/onbloc/ibc/union/types/abi.gno:54-65 | the hand-written bytes encoder is the generic one: the length as a number, the bytes, and zeros up to the next whole word |
| Commitments.EncodePacketArray | gno.land/p/onbloc/ibc/union/types/abi.gno:15-33 | the hand-written packet array encoder is the generic array encoder |
| Commitments.EncodeBytesArray | gno.land/p/onbloc/ibc/union/types/abi.gno:35-50 | the hand-written bytes array encoder is the generic array encoder |
| Commitments.WrappedIsTuple | gno.land/p/onbloc/ibc/union/types/abi.gno:8-13 | the offset word in front of a dynamic value makes the tuple of that one value |
| Commitments.PacketsPreimage | gno.land/p/onbloc/ibc/union/types/commit.gno:12-19 | what a packet batch is hashed from is the ABI encoding of one packet array; read as numbers it holds the distance 32, the number of packets, the distance of each packet, and at that distance each packet word by word, and nothing else |
| Commitments.PreimageIsBatch | gno.land/p/onbloc/ibc/union/types/commit.gno:12-19 | packet i of the preimage stands behind the sizes of the packets before it, where its offset says |
| Commitments.PreimageIsAckBatch | gno.land/p/onbloc/ibc/union/types/commit.gno:37-39 | and so does acknowledgement i |
| Commitments.AcksPreimage | gno.land/p/onbloc/ibc/union/types/commit.gno:37-39 | what a batch of acknowledgements is hashed from is the ABI encoding of one bytes array; read as numbers it holds the distance 32, their number, the distance of each, and at that distance each with its length and its zeros |
| Commitments.PacketsEncode | gno.land/p/onbloc/ibc/union/types/commit.gno:12-19 | encoding a batch never fails |
| Commitments.AcksEncode | gno.land/p/onbloc/ibc/union/types/commit.gno:37-39 | encoding a batch of acknowledgements never fails |
| Commitments.SamePacketsPreimage | gno.land/p/onbloc/ibc/union/types/commit.gno:12-19 | two batches have the same preimage exactly when they agree packet by packet on everything but the timeout height |
| Commitments.SameAcksPreimage | gno.land/p/onbloc/ibc/union/types/commit.gno:37-39 | two batches of acknowledgements with the same preimage are the same |
| Commitments.SenderSaltPreimage | gno.land/p/onbloc/ibc/union/zkgm/salt.gno:58-77 | the buffer filled in place is the ABI encoding of the tuple of sender and salt; read as numbers, two distances, then the salt, the length of the sender, the sender, and zeros up to the end |
| Delays.EarliestIsReached | gno.land/p/onbloc/access/manager/delay.gno:20-26 | the earliest instant, with a change pending or not, is the least t + delay(t) over all later t, and some t reaches it |
| Delays.UpdateKeepsEarliest | gno.land/p/onbloc/access/manager/delay.gno:33-46 | a scheduled change leaves the delay in force, and right after it the earliest instant is the present plus that delay, never less than before |
| Delays.UpdateTakesEffect | gno.land/p/onbloc/access/manager/delay.gno:33-46 | a change takes effect exactly after its setback, the least setback or as much as the delay is lowered by if that is more: before it the old value is in force, from then on the new one |
| Delays.AccessStarts | gno.land/p/onbloc/access/manager/access.gno:13-29 | access granted now with a delay is active exactly from now plus the delay on; at time zero it never starts |
| ManagerLaws.ChangeTakesEffect | gno.land/p/onbloc/access/manager/state.gno:226-233 | in every run without another change of that role's delay, a requested change is in force exactly from its setback on, which is at least 432000 seconds |
| ManagerLaws.NewDelayBinds | gno.land/p/onbloc/access/manager/state.gno:148-233 | and a role granted from then on, in any such run, is held exactly once the new delay is over |
| ManagerLaws.GrantedRun | gno.land/p/onbloc/access/manager/state.gno:148-156 | granted to somebody who is no member, a role is held, in every run that does not take it away, exactly from the end of the delay in force at the grant |
| ManagerLaws.RevokedRun | gno.land/p/onbloc/access/manager/state.gno:162-207 | a role taken away is not held again, in any run that does not grant it again |
| ManagerLaws.NeverGranted | gno.land/p/onbloc/access/manager/state.gno:10-61 | from the empty manager on, nobody holds a role other than the public one that was never granted to it |
| ManagerLaws.OthersKeepRoles | gno.land/p/onbloc/access/manager/state.gno:148-262 | no other operation changes an account's membership of a role |
| ManagerLaws.GrantTwice | gno.land/p/onbloc/access/manager/state_role.gno:33-42 | granting a role again changes nothing for a member |
| ManagerLaws.EverybodyIsPublic | gno.land/p/onbloc/access/manager/state.gno:50-53 | everybody has the public role |
| ManagerLaws.Refusals | gno.land/p/onbloc/access/manager/state.gno:148-233 | each operation is refused exactly for the locked roles, the last admin or a wrong confirmation, and otherwise reports whether a membership came or went |
| ManagerLaws.AdminOfRun | gno.land/p/onbloc/access/manager/state.gno:86-218 | after every run the admin of a role is the one set last, and the admin role if none was |
| ManagerLaws.DefaultDelay | gno.land/p/onbloc/access/manager/state_role.gno:25-31 | after every run a role whose delay was never set has none |
| ManagerLaws.RolesAreSet | gno.land/p/onbloc/access/manager/state_target.gno:21-25 | the listed selectors have the role, and all others what they had |
| ManagerLaws.CallsAllowed | gno.land/p/onbloc/access/manager/state.gno:24-37 | after every run from the empty manager a call is allowed exactly when the target was not closed last and the caller has the role set last for the selector, or the admin role if none was |
| ManagerLaws.UnsetNeedsAdmin | gno.land/p/onbloc/access/manager/state.gno:123-127 | a selector without any setting in the run can be called exactly by active admins of an open target |
| ManagerLaws.SetNeedsRole | gno.land/p/onbloc/access/manager/state.gno:240-251 | from a setting on and until the next, exactly the holders of that role may call, while the target is open |
| ManagerLaws.ClosedAsSet | gno.land/p/onbloc/access/manager/state.gno:259-262 | a target is open until it is closed, and as set last from then on |
| ManagerRuns.EarliestNeverMovesBack | gno.land/p/onbloc/access/manager/state_role.gno:33-84 | along every run of operations with a clock that never goes back, the earliest instant at which a grant not yet made could become active never moves earlier |
| ManagerRuns.GrantsWait | gno.land/p/onbloc/access/manager/state_role.gno:33-60 | who is not a member cannot be an active one before the earliest instant, whatever is granted, revoked or rescheduled meanwhile |
| ManagerRuns.ChangeWaits | gno.land/p/onbloc/access/manager/state.gno:226-233 | after a change of delay, who is not a member waits at least the delay that was in force when it was requested |
| ManagerRuns.CallsWait | gno.land/p/onbloc/access/manager/state.gno:24-37 | nor can a stranger to a role make a call that needs it any earlier |
| ManagerRuns.OverflowActivates | gno.land/p/onbloc/access/manager/access.gno:13-29 | only a sum past the largest int64 makes a delayed grant start early, and then it is active at once |
| ManagerRuns.AlwaysAnAdmin | gno.land/p/onbloc/access/manager/state.gno:162-207 | once there is an active admin there is one after every run |
| ManagerRuns.PendingAdminRevocable | gno.land/p/onbloc/access/manager/state.gno:162-196 | an admin whose access has not started can be revoked at any time |
| ManagerRuns.LockedStays | gno.land/p/onbloc/access/manager/state.gno:148-233 | after every run the public role is not configured and the admin role is its own admin |
| AccessState.RoleConfig.Grant | gno.land/p/onbloc/access/manager/state_role.gno:33-42 | a new member gets the access the delay in force gives, an old one keeps its own |
| AccessState.RoleConfig.Revoke | gno.land/p/onbloc/access/manager/state_role.gno:44-51 | the member is gone, and the result says whether there was one |
| AccessState.TargetConfig.SetFunctionRoles | gno.land/p/onbloc/access/manager/state_target.gno:15-25 | all the given selectors get the role, in order |
| AccessState.State.IsLastAdmin | gno.land/p/onbloc/access/manager/state.gno:178-196 | true exactly for the only active member of the admin role |
| AccessState.State.CanCall | gno.land/p/onbloc/access/manager/state.gno:24-37 | true exactly when the target is open and the caller has the role of the function, which is the admin role for a function without setting |
| AccessState.State.HasRole | gno.land/p/onbloc/access/manager/state.gno:50-61 | true exactly for everybody in the public role and for active members of any other |
| AccessState.State.EnsureRole | gno.land/p/onbloc/access/manager/state.gno:301-306 | a missing role is created with its defaults, shared with no other role, and nothing else changes |
| AccessState.State.GrantRole | gno.land/p/onbloc/access/manager/state.gno:148-156 | the objects change as the state machine says, or not at all |
| AccessState.State.RevokeRole | gno.land/p/onbloc/access/manager/state.gno:162-174 | the objects change as the state machine says, or not at all when the last active admin would go |
| AccessState.State.RenounceRole | gno.land/p/onbloc/access/manager/state.gno:201-207 | revokes what the caller confirms, and nothing otherwise |
| AccessState.State.SetRoleAdmin | gno.land/p/onbloc/access/manager/state.gno:213-218 | the objects change as the state machine says; the two special roles are refused |
| AccessState.State.SetGrantDelay | gno.land/p/onbloc/access/manager/state.gno:226-233 | the delay change is scheduled as the state machine says |
| AccessState.State.SetTargetFunctionRoles | gno.land/p/onbloc/access/manager/state.gno:240-251 | the roles of a target's functions change, and those of no other target |
| AccessState.State.SetTargetClosed | gno.land/p/onbloc/access/manager/state.gno:259-262 | one target is opened or closed |
| Ordering.SortedIsInOrder | tools/gen-ibc-genesis-txs.py:101-107 | sorting a list without repetitions gives the one increasing sequence of its elements, whatever order they came in |
| Ordering.LessIsLexicographic | tools/gen-ibc-genesis-txs.py:101-107 | names are compared at their first difference, where a name that ends comes first |
| TopoSort.RoundKeepsInvariant | tools/gen-ibc-genesis-txs.py:104-110 | one package done: what is done stays in order, and the queue is exactly what else is ready |
| TopoSort.ScanImports | tools/gen-ibc-genesis-txs.py:95-99 | the counts and lists of dependents of one more package, its own imports of itself left out |
| TopoSort.Finish | tools/gen-ibc-genesis-txs.py:107-110 | the counters of all dependents go down and exactly the packages that become ready are queued, in order |
| TopoSort.NotOnCycle | tools/gen-ibc-genesis-txs.py:104-113 | a package on a cycle of imports never becomes ready |
| TopoSort.StuckHasCycle | tools/gen-ibc-genesis-txs.py:112-114 | packages that all wait for each other hold a cycle |
| TopoSort.OrderIsComplete | tools/gen-ibc-genesis-txs.py:112-114 | the order has every package exactly when there is no cycle; otherwise each package left waits for another one left, and all cycles are among them |
| TopoSort.OrderIsSorted | tools/gen-ibc-genesis-txs.py:87-116 | without a cycle every package stands exactly once, after all its imports |
| TopoOrder.OrderInTurn | tools/gen-ibc-genesis-txs.py:101-110 | in terms of the order alone: packages stand in the order in which they became ready, and by name where several became ready together |
| TopoOrder.OnlyOrder | tools/gen-ibc-genesis-txs.py:101-110 | any order in which packages come after their imports, none that is ready is missing, and all come in those turns is the one of the sort |
| TopoSort.TopologicalSort | tools/gen-ibc-genesis-txs.py:87-116 | returns that order with the directories exactly when there is no cycle, and else the packages left; the result depends on the graph alone, not on the order sets are gone through |
| Protobuf.UvarintBack | tools/cometbls-fixtures/main.go:375-377 | a varint is read back from the front of any bytes |
| Protobuf.UvarintShortest | tools/cometbls-fixtures/main.go:375-377 | no shorter varint has the same value: all bytes but the last have their top bit set, and the last is no needless zero |
| Protobuf.VarintBack | tools/cometbls-fixtures/main.go:367-373 | signed numbers are read back, even codes as the numbers from zero up and odd ones as those below |
| Protobuf.MessageBack | tools/cometbls-fixtures/main.go:401-409 | a message of varint and bytes fields is read back field by field |
| Protobuf.InnerOpBack | tools/cometbls-fixtures/main.go:432-440 | an encoded inner operation is read back from its varint and bytes fields, where the last value of a field counts and unknown fields are skipped; its empty suffix is left out |
| Protobuf.ExistenceBack | tools/cometbls-fixtures/main.go:421-430 | an encoded existence proof is read back with all its inner operations in order |
| Protobuf.NonExistenceBack | tools/cometbls-fixtures/main.go:442-454 | an encoded non-existence proof is read back, with what is left out as empty |
| Merkle.OpsClimb | tools/cometbls-fixtures/main.go:280-309 | the operation written for a left and for a right child turns the child's hash into the parent's |
| Merkle.InnerBack | tools/cometbls-fixtures/main.go:346-373 | what a node is hashed from is read back as its height, its size, one, and the hashes of both sides |
| Merkle.OpsFit | tools/cometbls-fixtures/main.go:280-309 | both operations start with the height, the size and one, and with the hash of their side in between they are all the parent is hashed from |
| MerkleTree.InnerOnly | tools/cometbls-fixtures/main.go:346-373 | what a node is hashed from is settled by its height, its size, one, and both hashes |
| MerkleTree.HashIsOne | tools/cometbls-fixtures/main.go:280-309 | a tree of hashes has exactly one root hash |
| MerkleTree.HalfIsPower | tools/cometbls-fixtures/main.go:266-276 | the left side of the tree takes the largest power of two below the number of leaves |
| MerkleTree.PairUpJoined | tools/cometbls-fixtures/main.go:266-276 | combining neighbours again and again makes the same tree as dividing from the top |
| MerkleTree.TreeHasTips | tools/cometbls-fixtures/main.go:255-278 | the tips of the tree over a list of hashes are those hashes in order |
| Merkle.AppendToProofs | tools/cometbls-fixtures/main.go:294-299 | every leaf of a node gets the operation appended, which makes its proof one for the parent |
| Merkle.Combine | tools/cometbls-fixtures/main.go:280-309 | two nodes with the hashes, sizes, heights and proofs of two trees make one with those of the tree of both, whose header holds its height, its size and one, and with its leaves in order |
| Merkle.CombineLevel | tools/cometbls-fixtures/main.go:266-276 | a round combines neighbours, moves an odd one up as it is, and keeps all proofs |
| Merkle.RoundsIsCeilLog | tools/cometbls-fixtures/main.go:266-276 | the number of rounds is the binary logarithm of the number of leaves, rounded up |
| Merkle.BuildRoot | tools/cometbls-fixtures/main.go:255-278 | for every non-empty list of distinct leaves: the root has the hash and height of the tree over the leaf hashes, which is defined on those alone; each leaf's proof has the operations of the nodes above it, leads from its hash to the root, and has at most as many steps as the logarithm of their number, rounded up; the root counts all leaves and keeps their order |
| Neighbours.PrefixKeepsOrder | tools/cometbls-fixtures/main.go:393-395 | the store prefix in front of all keys does not change their order |
| Neighbours.NonMembershipNeighbors | tools/cometbls-fixtures/main.go:238-253 | refuses exactly the keys that are present; otherwise gives the encoded existence proofs of the last leaf before the key and of the first after it, which are read back with the store prefix in front of the leaf's key, its value and its path |

## Left out

- Newton.FirstEstimate: `bits.Div32`, and in `Words` the other functions of `math/bits`, `strconv` and `encoding/binary`, have their integer meaning; their own code is not part of this model.
- AbiRoundTrip.DecodedConforms: re-encoding decoded values need not give the same bytes, because the decoder accepts non-zero padding and offsets in any order.
- AbiDecode.Decode: lengths are below the largest int by a word, as for every Go slice, and the sizes of heads are not modelled as wrapping, since a schema that large cannot be walked.
- ManagerRuns.EarliestNeverMovesBack: the clock stays 2^32 seconds below the largest int64; `OverflowActivates` says what happens past the end.
- RlpDecode.DecodeItem: an error does not carry the undecoded bytes, which no caller outside the decoder sees.
- TopoSort.TopologicalSort: reading the packages' files is not part of this model; the imports of each package are an argument.
- Merkle.BuildRoot: SHA-256 is an arbitrary function, the hash of a leaf is given, and sizes are not modelled as wrapping in an int64.
- Neighbours.NonMembershipNeighbors: the encodings of the leaf operation and of the inner operations are arguments; the order of the leaves is required, as the caller sorts them.
- AbiInjective.EncodingInjective: slices have no more elements than an int counts, as in Go.
- keccak256 is left out: properties are about what is hashed, and the byte that marks an acknowledgement is replaced after hashing.
- The clock is an argument of every operation of the access manager; requires, events and labels of the realms are left out.
- `Uint.Byte`, `SetBytes1` to `SetBytes31` and the signed conversions: they pick or place single bytes and the sign of a number, and nothing modelled here calls them. `FromDecimal` and `MustFromDecimal` of package `uint256` only wrap `SetFromDecimal`.
- `DeriveBatchSalt` hashes 64 bytes; `TintForwardSalt` sets the bits of a fixed mask in a salt and `IsForwardedPacket` tests them: no preimage or path depends on them.
- The leaf operation and commitment wrappers of the fixture tool, and the printing of fixtures.
- `ibc/union/zkgm/tokenbucket`, a rate limit that refills with time, and `ibc/union/zkgm/predict.gno` and `abi.gno`, the derivation of voucher names and the schemas of instructions.
- `verifier/evm/mpt` and `verifier/evm/storage`, the walk down a Merkle Patricia trie by a proof, which uses the RLP decoder.
- `ibc/union/lightclient`: the CometBLS and state lens clients check headers, misbehaviour and proofs with algorithms of their own.
- `ibc/union/app` and the messages, heights, paths and handshake records of `ibc/union/types`; the realms; generated protocol buffer code.
