# Verified model of the QR Code generator and the genesis transaction writer

The repository carries a complete QR Code encoder, `external/qrcodegen/QrCode.cpp`, which implements
ISO/IEC 18004. This project models it from text to modules and proves, for all inputs, that a reader
who sees nothing but the modules gets back what was encoded. It also models the variable-length
integers of `generate_genesis.py`.

## How the model is laid out

The encoder is a pipeline, and the modules follow it.

| stage | modules |
|---|---|
| bits and bytes | `Bits`, `BitStrings` |
| segments and their bit stream | `Packings`, `Segments`, `SegmentStreams` |
| version, level, padding | `Tables`, `Encoder` |
| error correction | `GaloisField`, `FieldGenerator`, `Polynomials`, `ReedSolomon`, `MinimumDistance` |
| blocks | `Interleaving` |
| modules | `Grids`, `Zigzag`, `Placement`, `SymbolGeometry`, `Patterns`, `CheckBits`, `InfoPatterns`, `FunctionPatterns` |
| mask choice | `Runs`, `LinePenalty`, `Penalty`, `Scores`, `Masking`, `MaskPictures` |
| whole symbols | `QrCodes`, `SymbolStructure`, `Reader`, `Damage`, `EndToEnd`, `Capacity` |
| genesis transaction | `Varint` |

`Arithmetic`, `Sets` and `Results` hold small shared facts and the result types.

Code that works in place is modelled in place: `BitBuffer` and `QrCode` are classes, modules and
function marks are `array2<bool>`, the divisor buffer and the run history are arrays, and the loops
of the source are loops. Each of these methods is tied to a specification function on values
(`Snapshot` turns an `array2` into such a value), and the theorems are about those functions. The
reader is a specification only: it takes away the picture of the mask, follows the zigzag, de-interleaves, drops the
error correction codewords and parses the segments.

Exceptions are values of `Result`. Where the source throws `logic_error` to assert something, the
method has no such outcome, or the lemma beside it says when it occurs.

## Main results

- `EndToEnd.PayloadsSurvive`, `EndToEnd.SegmentsSurvive`: everything that fits is read back from the
  modules, for all 40 versions, 4 levels and 8 masks. `Capacity.EncodeText` and
  `Capacity.EncodeBinary` carry this to the public functions, with the promised bound of 2953 bytes,
  which is exact for bytes.
- `Damage.ToleratedSymbolReads`, `Damage.AlteredSymbolReads`: the symbol is still read back when the
  documented share of codewords is wrong, or when few enough modules change colour. This rests on
  `MinimumDistance.CodewordDistance`, that is, on the field, the generator polynomial and the
  division loop being right.
- `SymbolStructure`: what every finished symbol shows, module by module, for all versions, levels, data
  and masks, by coordinates and pictures: `FindersIntact`, `AlignmentIntact`, `TimingIntact`,
  `FormatShown`, `VersionShown` and, with `Zigzag.ScanOrder`, `DataShown`. `Interleaving.InterleavedData`,
  `Interleaving.InterleavedEcc` and `Encoder.CodewordsContents` say the same of the codewords.
- `Masking.ChooseMask` with `Penalty.GetPenaltyScore` and `LinePenalty.ScanLine`: the trial-and-undo
  search finds the mask of least penalty, where penalty is defined by maximal runs and windows and
  not by the scanner.
- `SymbolGeometry.FreeModuleCount` and `FunctionPatterns.FreePathLength`: the closed capacity formula
  counts the modules that the drawing code really leaves free, so `Placement.DrawCodewords` never
  runs out of room.
- `Interleaving.PositionInjective`, `Interleaving.PositionOnto`, `Interleaving.ReadDataInverts`:
  interleaving is a bijection for all block counts and lengths.
- `Varint.DecodeInverts`, `Varint.EncodeMinimal`, `Varint.CanonicalIffNoFinalZero`.

Where code and documentation could be read differently, the model follows the code. The header says
that at most 2953 bytes are allowed without naming a level; this is the bound of the low level, and
the higher levels hold less.

## Model

| member | source | states |
|---|---|---|
| `BitStrings.BitBuffer.constructor` | external/qrcodegen/QrCode.cpp:851-852 | a new buffer is empty |
| `BitStrings.BitBuffer.AppendBits` | external/qrcodegen/QrCode.cpp:855-860 | succeeds exactly for widths 0 to 31 and values that fit the width; then the big-endian bits of the value are appended, otherwise nothing changes |
| `BitStrings.ValueOfBitsOf` | external/qrcodegen/QrCode.cpp:855-860 | a value that fits its field is recovered from the bits appended for it |
| `BitStrings.BitsOfValueOf` | external/qrcodegen/QrCode.cpp:855-860 | every bit string is the field of exactly the number it writes, and that number fits its width |
| `BitStrings.BitsOfAt` | external/qrcodegen/QrCode.cpp:814-816 | bit i of a value, as `getBit` extracts it, is the bit that `appendBits` writes i places from the end |
| `BitStrings.PackBits` | external/qrcodegen/QrCode.cpp:310-313 | OR-ing every bit, shifted to its place, into its byte packs the bit string for every length that is a multiple of 8 |
| `BitStrings.PartialStep` | external/qrcodegen/QrCode.cpp:312-313 | one step of the packing loop adds bit i to byte i / 8 and leaves the other bytes alone |
| `BitStrings.UnpackPack` | external/qrcodegen/QrCode.cpp:310-313 | extracting the bits with `getBit(byte, 7 - (i & 7))` undoes packing |
| `BitStrings.PackUnpack` | external/qrcodegen/QrCode.cpp:583 | packing undoes extraction, so the two are mutually inverse bijections |
| `BitStrings.UnpackSnoc` | external/qrcodegen/QrCode.cpp:67-74 | extraction order agrees with the order in which `appendBits(b, 8)` writes a byte |
| `GaloisField.Times2Shift` | external/qrcodegen/QrCode.cpp:776 | the shift-and-reduce step on plain integers is multiplication by x modulo 0x11D |
| `GaloisField.MulAddRight` | external/qrcodegen/QrCode.cpp:772-782 | multiplication distributes over XOR in the second factor |
| `GaloisField.MulAddLeft` | external/qrcodegen/QrCode.cpp:772-782 | multiplication distributes over XOR in the first factor |
| `GaloisField.MulComm` | external/qrcodegen/QrCode.cpp:772-782 | multiplication is commutative, although the loop treats its factors differently |
| `GaloisField.MulAssoc` | external/qrcodegen/QrCode.cpp:772-782 | multiplication is associative |
| `FieldGenerator.OrderOfTwo` | external/qrcodegen/QrCode.cpp:744 | no power 2^m with 0 < m < 255 is 1 |
| `FieldGenerator.PowersOfTwoDistinct` | external/qrcodegen/QrCode.cpp:744 | 2^0 .. 2^254 are pairwise different |
| `FieldGenerator.Logarithm` | external/qrcodegen/QrCode.cpp:744 | every nonzero element is a power of 2, that is, 2 generates the field as the source comment claims |
| `FieldGenerator.NoZeroDivisors` | external/qrcodegen/QrCode.cpp:772-782 | a product is zero if and only if a factor is |
| `ReedSolomon.ReedSolomonMultiply` | external/qrcodegen/QrCode.cpp:772-782 | the peasant loop computes the field product for all 65536 pairs, and its 8-bit assertion never fails |
| `Polynomials.EvalTimesLinear` | external/qrcodegen/QrCode.cpp:747-752 | multiplying by (x - root) multiplies every value of the polynomial by (x - root) |
| `Polynomials.EvalProduct` | external/qrcodegen/QrCode.cpp:761-767 | the value of a product of polynomials is the product of the values |
| `ReedSolomon.GeneratorRoots` | external/qrcodegen/QrCode.cpp:742-744 | the roots of the generator polynomial of degree n are exactly 2^0 .. 2^(n-1), both directions |
| `ReedSolomon.MultiplyByLinear` | external/qrcodegen/QrCode.cpp:748-752 | one in-place round multiplies the buffer by (x - root) and drops what leaves it at the top |
| `ReedSolomon.SlotsStep` | external/qrcodegen/QrCode.cpp:746-754 | after i rounds the low-order slots hold exactly the product (x - 2^0)..(x - 2^(i-1)): the round invariant |
| `ReedSolomon.ReedSolomonComputeDivisor` | external/qrcodegen/QrCode.cpp:734-756 | refuses degrees outside 1 to 255; otherwise the in-place loop ends with the full product without its leading one |
| `ReedSolomon.ReedSolomonComputeRemainder` | external/qrcodegen/QrCode.cpp:759-769 | the shift register loop with its erase and push_back computes the specified register, for data of any length |
| `ReedSolomon.DivisionIdentity` | external/qrcodegen/QrCode.cpp:759-769 | data followed by the register equals quotient times divisor: after each prefix the register is prefix * x^d mod divisor, for any divisor |
| `ReedSolomon.DivisionUnique` | external/qrcodegen/QrCode.cpp:759-769 | no other quotient and register satisfy the division identity |
| `ReedSolomon.RemainderLinear` | external/qrcodegen/QrCode.cpp:759-769 | the remainder of a XOR b is the XOR of the remainders |
| `ReedSolomon.CodewordLinear` | external/qrcodegen/QrCode.cpp:544-549 | the code is linear: codewords of sums are sums of codewords |
| `ReedSolomon.CodewordRoots` | external/qrcodegen/QrCode.cpp:734-769 | data followed by its remainder evaluates to zero at each of 2^0 .. 2^(d-1) |
| `MinimumDistance.MinimumWeight` | external/qrcodegen/QrCode.cpp:734-782 | a nonzero word of at most 255 symbols with d zero syndromes has more than d nonzero symbols (locator argument) |
| `MinimumDistance.CodewordDistance` | external/qrcodegen/QrCode.cpp:734-782 | different data blocks of equal length give codewords that differ in at least d + 1 places, for all k + d <= 255 |
| `MinimumDistance.UniqueCorrection` | external/qrcodegen/QrCode.hpp:244-247 | at most d / 2 wrong symbols leave only one data block possible: the code really corrects errors |
| `MinimumDistance.SyndromesDetectErrors` | external/qrcodegen/QrCode.cpp:734-769 | a word of at most 255 symbols is a codeword if and only if its d syndromes vanish |
| `Interleaving.ShapeTotals` | external/qrcodegen/QrCode.cpp:534-538 | short and long blocks together account for every raw codeword and every data codeword |
| `Interleaving.SplitIntoBlocks` | external/qrcodegen/QrCode.cpp:540-551 | the slices stay in bounds, use all the data, and every block is its data, a filler if short, and its remainder |
| `Interleaving.InterleaveBlocks` | external/qrcodegen/QrCode.cpp:553-561 | the double loop sends the rows in order and skips exactly the fillers |
| `Interleaving.AddEccAndInterleave` | external/qrcodegen/QrCode.cpp:529-565 | refuses exactly wrong data lengths; the result has `rawCodewords` bytes, so the final check never throws; for all block counts and lengths |
| `Interleaving.InterleaveLength` | external/qrcodegen/QrCode.cpp:562-563 | the interleaved sequence has exactly the raw length |
| `Interleaving.PositionBound` | external/qrcodegen/QrCode.cpp:553-561 | every codeword of every block lands inside the sequence |
| `Interleaving.PositionInjective` | external/qrcodegen/QrCode.cpp:553-561 | no two codewords land in the same place |
| `Interleaving.PositionOnto` | external/qrcodegen/QrCode.cpp:553-561 | every place carries a codeword: interleaving is a bijection |
| `Interleaving.InterleavedData` | external/qrcodegen/QrCode.cpp:540-561 | where every data codeword is sent, in closed form from its place in the data |
| `Interleaving.InterleavedEcc` | external/qrcodegen/QrCode.cpp:546-561 | error correction codewords follow all data, row by row, one of every block |
| `Interleaving.ReadBlockInverts` | external/qrcodegen/QrCode.cpp:540-561 | de-interleaving recovers every block as its data followed by its error correction codewords |
| `Interleaving.ReadDataInverts` | external/qrcodegen/QrCode.cpp:529-565 | de-interleaving and dropping the error correction codewords returns the data in order |
| `Zigzag.ScanMember` | external/qrcodegen/QrCode.cpp:574-590 | the scan, with its jump over column 6, visits exactly the modules outside column 6 |
| `Zigzag.ScanDistinct` | external/qrcodegen/QrCode.cpp:574-590 | the scan visits no module twice |
| `Zigzag.DirectionsAlternate` | external/qrcodegen/QrCode.cpp:580 | consecutive column pairs are scanned in opposite directions, also across column 6 |
| `Zigzag.ScanOrder` | external/qrcodegen/QrCode.cpp:574-590 | the whole scan in closed form for every size n = 4v + 17: which columns the k-th pair has, that it runs up from the bottom row for even k and down for odd k, and right before left in each row |
| `Zigzag.ScanFirst` | external/qrcodegen/QrCode.cpp:574-590 | the first module of the scan is the bottom right corner |
| `Placement.FreeAt` | external/qrcodegen/QrCode.cpp:582-585 | a free module met at step k comes in the order of free modules after exactly as many as were met before it |
| `Placement.PlacedAt` | external/qrcodegen/QrCode.cpp:582-585 | each cell of a path holds its bit, every other module is unchanged |
| `Placement.ReadPlaced` | external/qrcodegen/QrCode.cpp:582-585 | reading along the path returns the bits |
| `Placement.DrawPair` | external/qrcodegen/QrCode.cpp:577-589 | one column pair continues the placement at bit i and keeps the placement invariant |
| `Placement.DrawCodewords` | external/qrcodegen/QrCode.cpp:572-592 | for any function-module grid: fails if and only if there are fewer free modules than bits; otherwise bit i goes to the i-th free module and nothing else changes |
| `Tables.TableFacts` | external/qrcodegen/QrCode.cpp:827-843 | for all versions and levels the blocks have 1 to 30 error correction codewords and fewer than 155 codewords each, and the error correction fits the raw capacity |
| `Tables.EccTotals` | external/qrcodegen/QrCode.cpp:727-731 | for all versions and levels, blocks times codewords per block is the published total of error correction codewords, and data makes up the rest |
| `Tables.GetNumRawDataModules` | external/qrcodegen/QrCode.cpp:711-724 | refuses other versions; for all 40 versions the range assertion holds |
| `SymbolGeometry.AlignSpacing` | external/qrcodegen/QrCode.cpp:699-703 | alignment patterns never touch each other or a finder pattern |
| `SymbolGeometry.AlignStepLeast` | external/qrcodegen/QrCode.cpp:699-705 | the first position is 6 and the last size - 7; the distance is the least even one for which the first gap is no larger than the others, except 26 in version 32 |
| `SymbolGeometry.AlignmentBySpans` | external/qrcodegen/QrCode.cpp:431-437 | which modules the alignment patterns cover, leaving out the three corners |
| `SymbolGeometry.RegionsDisjoint` | external/qrcodegen/QrCode.cpp:416-442 | finder corners, timing, alignment and version regions do not overlap once the shared timing modules are counted once |
| `SymbolGeometry.FreeModuleCount` | external/qrcodegen/QrCode.cpp:711-720 | for all 40 versions the function patterns leave exactly as many modules free as the closed capacity formula says |
| `Patterns.GetAlignmentPatternPositions` | external/qrcodegen/QrCode.cpp:695-708 | the positions are ascending, at least 5 apart, within 6 and size - 7, and as many as the capacity formula assumes |
| `Patterns.SetFunctionModule` | external/qrcodegen/QrCode.cpp:516-521 | one module is coloured and marked, nothing else changes |
| `Patterns.DrawFinderPattern` | external/qrcodegen/QrCode.cpp:496-505 | colours and marks exactly the 9 by 9 block clipped to the grid, by Chebyshev distance |
| `Patterns.DrawAlignmentPattern` | external/qrcodegen/QrCode.cpp:508-513 | colours and marks exactly the 5 by 5 block |
| `Patterns.DrawTimingPatterns` | external/qrcodegen/QrCode.cpp:417-421 | row 6 and column 6 alternate and are marked |
| `CheckBits.CheckRegisterBound` | external/qrcodegen/QrCode.cpp:449-450 | the check register never grows beyond its width |
| `CheckBits.CheckDivision` | external/qrcodegen/QrCode.cpp:448-450 | the check bits are the remainder of binary polynomial division: shifted data and register differ by a multiple of the generator |
| `CheckBits.ComputeFormatBits` | external/qrcodegen/QrCode.cpp:446-453 | computes the format word and its 15-bit assertion never fails |
| `CheckBits.FormatWordInverts` | external/qrcodegen/QrCode.cpp:447-451 | level and mask are recovered from the format word |
| `CheckBits.FormatIsCodeword` | external/qrcodegen/QrCode.cpp:447-451 | without the mask 0x5412 the format word is a multiple of the polynomial 0x537 that begins with the two level bits and the three mask bits |
| `CheckBits.VersionIsCodeword` | external/qrcodegen/QrCode.cpp:478-481 | the version word is a multiple of the polynomial 0x1F25 that begins with the version |
| `CheckBits.ComputeVersionBits` | external/qrcodegen/QrCode.cpp:477-483 | computes the version word and its 18-bit assertion never fails |
| `CheckBits.VersionWordInverts` | external/qrcodegen/QrCode.cpp:478-483 | the version number is recovered from the version word |
| `InfoPatterns.FormatIndexInverts` | external/qrcodegen/QrCode.cpp:455-469 | the 31 modules drawn are pairwise different and inside the symbol |
| `InfoPatterns.DrawFormatBits` | external/qrcodegen/QrCode.cpp:445-470 | overwrites exactly the fixed set of format modules, whatever was there, and marks them |
| `InfoPatterns.ReadFormatInverts` | external/qrcodegen/QrCode.cpp:455-462 | the first copy of the format bits reads back as the word drawn |
| `InfoPatterns.DrawVersion` | external/qrcodegen/QrCode.cpp:473-493 | both copies of the version word from version 7 on, nothing before |
| `FunctionPatterns.DrawAlignmentPatterns` | external/qrcodegen/QrCode.cpp:428-437 | draws exactly the alignment patterns that are not on finder corners |
| `FunctionPatterns.DrawFunctionPatterns` | external/qrcodegen/QrCode.cpp:416-442 | all patterns drawn in turn, each over the ones before |
| `FunctionPatterns.RegionsAre` | external/qrcodegen/QrCode.cpp:416-442 | the regions drawn cover exactly the function modules of the version |
| `FunctionPatterns.PatternMarksAreFunctionModules` | external/qrcodegen/QrCode.cpp:416-442 | starting from an unmarked grid exactly the function modules end up marked |
| `FunctionPatterns.FreePathLength` | external/qrcodegen/QrCode.cpp:568-593 | for every version the scan meets each free module once and exactly `getNumRawDataModules` of them |
| `Runs.RunsOfMaximal` | external/qrcodegen/QrCode.cpp:628-642 | the runs found reading left to right are non-empty and alternate in colour |
| `Runs.ExpandRunsOf` | external/qrcodegen/QrCode.cpp:628-642 | the runs describe the line |
| `Runs.RunsOfUnique` | external/qrcodegen/QrCode.cpp:628-642 | they are the only maximal runs that do |
| `LinePenalty.HistoryCountIsFinderCount` | external/qrcodegen/QrCode.cpp:785-792 | counting in the seven-entry history after each white run counts every window of seven runs ending in white once |
| `LinePenalty.FinderPenaltyAddHistory` | external/qrcodegen/QrCode.cpp:806-811 | the shifted history with the new length in front, and the border added to the first run |
| `LinePenalty.FinderPenaltyCountPatterns` | external/qrcodegen/QrCode.cpp:785-792 | the pattern count of the history; the requirement is the negation of the assertion in line 787, and every caller meets it |
| `LinePenalty.FinderPenaltyTerminateAndCount` | external/qrcodegen/QrCode.cpp:795-803 | the white border ends a black run or lengthens a white one |
| `LinePenalty.RunScoreSame` | external/qrcodegen/QrCode.cpp:629-634 | charging 3 for the fifth module and 1 for each further one adds up to L - 2 for a run of length L >= 5 |
| `LinePenalty.ScanPush` | external/qrcodegen/QrCode.cpp:636-638 | the lengths pushed are exactly the maximal runs of the line padded with `size` white modules; black runs are never longer than `size` |
| `LinePenalty.ScanModule` | external/qrcodegen/QrCode.cpp:628-642 | reading one module keeps the scanner invariant |
| `LinePenalty.ScanLine` | external/qrcodegen/QrCode.cpp:625-643 | the scanner refines the declarative score: L - 2 over maximal runs of 5 or more, plus 40 for each finder-like window of the padded line; the assertion in line 787 never fires |
| `Penalty.ScoreRows` | external/qrcodegen/QrCode.cpp:623-644 | the sum of the line scores of all rows |
| `Penalty.ScoreColumns` | external/qrcodegen/QrCode.cpp:645-666 | the sum of the line scores of all columns |
| `Penalty.CountBlocks` | external/qrcodegen/QrCode.cpp:668-677 | the number of 2 by 2 blocks of one colour |
| `Penalty.CountBlack` | external/qrcodegen/QrCode.cpp:680-686 | the number of black modules |
| `Penalty.ImbalanceIsLeast` | external/qrcodegen/QrCode.cpp:687-689 | for every odd total and every count, k is non-negative and the smallest k >= 0 with (45-5k)% <= black/total <= (55+5k)% |
| `Penalty.GetPenaltyScore` | external/qrcodegen/QrCode.cpp:620-692 | the four penalties of the present modules |
| `Penalty.PenaltyScoreBound` | external/qrcodegen/QrCode.cpp:620-692 | the score of every symbol is non-negative and below the least possible LONG_MAX |
| `Scores.UniformScore` | external/qrcodegen/QrCode.cpp:620-692 | the score of a symbol of one colour of any size n >= 5: 2n(n-2) + 3(n-1)^2 + 90, which fixes the weights |
| `Scores.FinderLineScore` | external/qrcodegen/QrCode.cpp:785-811 | a line that begins with a finder-like pattern counts it twice, because the borders are wide enough |
| `Scores.BetweenLineScore` | external/qrcodegen/QrCode.cpp:785-792 | a 1:1:3:1:1 pattern of any unit n between white runs of any lengths w and w' costs 40 for each side with at least 4n, if the other has at least n |
| `Scores.BlockByCount` | external/qrcodegen/QrCode.cpp:671-675 | a 2 by 2 block counts exactly if none or all of its modules are black |
| `Masking.MaskedTwice` | external/qrcodegen/QrCode.hpp:427-432 | applying a mask twice restores the modules |
| `Masking.InvertsModule` | external/qrcodegen/QrCode.cpp:602-613 | the eight conditions of the loop agree with parities and remainders: patterns 5 and 6 depend only on x * y modulo 6 |
| `MaskPictures.ShadedIsInverts` | external/qrcodegen/QrCode.cpp:603-612 | each pattern is, at every position, the repetition of a small picture given module by module |
| `Masking.ApplyMask` | external/qrcodegen/QrCode.cpp:596-617 | refuses masks outside 0 to 7; inverts exactly the selected modules that are not function modules |
| `Masking.MaskUnderFormat` | external/qrcodegen/QrCode.cpp:341-350 | masking and drawing format bits commute, because format modules are marked |
| `Masking.TrialSymbol` | external/qrcodegen/QrCode.cpp:341-350 | a trial scores exactly the symbol that forcing that mask would give, whatever format bits earlier trials left, and undoing it restores all data modules |
| `Masking.RedrawFormat` | external/qrcodegen/QrCode.cpp:343 | drawing the format bits again leaves the marking unchanged |
| `Masking.ChooseMask` | external/qrcodegen/QrCode.cpp:338-351 | the mask found has the least penalty of the eight, the lowest number on ties; afterwards only the format bits differ and the marking is unchanged |
| `QrCodes.ShapeForTotals` | external/qrcodegen/QrCode.cpp:534-538 | for all versions and levels the block shape uses up the tabulated codewords and blocks stay within 155 symbols |
| `QrCodes.FormatIsMarked` | external/qrcodegen/QrCode.cpp:440 | the format modules are function modules |
| `QrCodes.QrCode.constructor` | external/qrcodegen/QrCode.cpp:328-331 | all modules white and none marked |
| `QrCodes.QrCode.DrawAllCodewords` | external/qrcodegen/QrCode.cpp:568-593 | refuses exactly wrong lengths; with the right length the final assertion is unreachable for all 40 versions |
| `QrCodes.QrCode.DrawBase` | external/qrcodegen/QrCode.cpp:333-336 | patterns and codewords on the blank symbol; fails only on a wrong data length |
| `QrCodes.QrCode.Mask` | external/qrcodegen/QrCode.cpp:338-356 | applies the forced mask or the best one; the final symbol is the one that was scored |
| `QrCodes.MakeQrCode` | external/qrcodegen/QrCode.cpp:320-360 | refuses exactly versions, masks and lengths out of range; otherwise the finished symbol, with the forced or the least-penalty mask; no assertion is reachable |
| `SymbolStructure.FunctionModulesKept` | external/qrcodegen/QrCode.cpp:320-360 | codewords, masking and the trial loop leave all function modules alone except the format bits, which end up those of the final mask |
| `SymbolStructure.FindersIntact` | external/qrcodegen/QrCode.cpp:423-426 | in every finished symbol all three finder patterns with separators show their picture, module by module |
| `SymbolStructure.AlignmentIntact` | external/qrcodegen/QrCode.cpp:428-437 | in every finished symbol every alignment pattern shows its picture, also those across a timing pattern |
| `SymbolStructure.TimingIntact` | external/qrcodegen/QrCode.cpp:417-421 | in every finished symbol the timing patterns alternate without a break between the finder patterns, also through alignment patterns |
| `SymbolStructure.FormatShown` | external/qrcodegen/QrCode.cpp:455-469 | in every finished symbol both copies show the format word at the given coordinates, and the module (8, size - 8) is black |
| `SymbolStructure.FormatCopiesAgree` | external/qrcodegen/QrCode.cpp:455-468 | both copies read as the same word, the format word of the final mask |
| `SymbolStructure.VersionShown` | external/qrcodegen/QrCode.cpp:485-492 | from version 7 on both copies show the version word at the given coordinates |
| `SymbolStructure.VersionReadsBack` | external/qrcodegen/QrCode.cpp:477-492 | both copies read as a word whose upper bits are the version |
| `SymbolStructure.DataShown` | external/qrcodegen/QrCode.cpp:320-360 | every data module of a finished symbol: the module met at step k of the scan shows the codeword bit whose number is the count of data modules met before, or white when there are no more, with the picture of the mask over it |
| `Reader.UnmaskedIsMasked` | external/qrcodegen/QrCode.hpp:427-432 | taking away the picture of a mask pattern is applying the mask a second time |
| `Reader.ReadInverts` | external/qrcodegen/QrCode.cpp:320-360 | for every version, level, data and mask, a reader that sees only the modules recovers version, level, mask and data codewords |
| `Reader.DamagedSymbol` | external/qrcodegen/QrCode.hpp:244-247 | for all versions and levels: while no block has more wrong codewords than half its error correction codewords, only one data sequence explains what was received |
| `Damage.CorrectableSymbolReads` | external/qrcodegen/QrCode.hpp:244-247 | a correcting reader gets back the segments from any grid whose blocks are damaged no further than that and whose format bits are intact |
| `Tables.ToleranceFits` | external/qrcodegen/QrCode.cpp:827-843 | the documented share of wrong codewords in any block, 7, 15, 25 or 30 percent by level, is within half the tabulated error correction codewords, for all versions |
| `Damage.ToleratedSymbolReads` | external/qrcodegen/QrCode.hpp:244-247 | the documented tolerances hold: a symbol with at most that share of wrong codewords in each block, and intact format bits, reads back as its segments |
| `Damage.FewAltered` | external/qrcodegen/QrCode.hpp:244-247 | no block has more wrong codewords than modules of the symbol have changed colour |
| `Damage.AlteredSymbolReads` | external/qrcodegen/QrCode.hpp:244-247 | whatever modules change colour, if they are at most half as many as the error correction codewords of a block and the format bits are intact, the segments are read back |
| `Damage.UndamagedSymbolReads` | external/qrcodegen/QrCode.cpp:255-360 | the correcting reader also gets back the segments of every undamaged symbol |
| `Packings.Packing.DecodeInverts` | external/qrcodegen/QrCode.cpp:77-120 | digit groups of any base and width that hold them decode to the digits, for any number of digits |
| `Packings.Accumulate` | external/qrcodegen/QrCode.cpp:86-92 | one step of the accumulate loop: a group is lengthened, or completed and appended, and its value fits its width |
| `Packings.AccumulateEnd` | external/qrcodegen/QrCode.cpp:94-95 | the shorter last group fits its width and completes the encoding |
| `Segments.NumericLength` | external/qrcodegen/QrCode.cpp:88-95 | n digits take 10 * (n / 3) bits plus 0, 4 or 7 |
| `Segments.AlphanumericLength` | external/qrcodegen/QrCode.cpp:111-118 | n characters take 11 * (n / 2) + 6 * (n % 2) bits |
| `Segments.MakeNumeric` | external/qrcodegen/QrCode.cpp:77-97 | refuses exactly strings with other characters; otherwise the packed digits, and `appendBits` never throws |
| `Segments.MakeAlphanumeric` | external/qrcodegen/QrCode.cpp:100-120 | refuses exactly strings with characters outside the charset; otherwise the packed offsets, and `appendBits` never throws |
| `Segments.FindInCharset` | external/qrcodegen/QrCode.cpp:106-109 | the offset of the first occurrence in the charset, or none |
| `Segments.MakeBytes` | external/qrcodegen/QrCode.cpp:67-74 | refuses exactly more than INT_MAX bytes; otherwise the bits of the bytes |
| `Segments.MakeEci` | external/qrcodegen/QrCode.cpp:141-156 | refuses exactly values outside 0 to 999999; otherwise the one, two or three byte designator |
| `Segments.EciInverts` | external/qrcodegen/QrCode.cpp:145-152 | the designator tells its own length and decodes to its value |
| `Segments.EciBytes` | external/qrcodegen/QrCode.cpp:145-152 | the designator as whole bytes 0vvvvvvv, 10vvvvvv and one more, or 110vvvvv and two more |
| `Segments.PayloadInverts` | external/qrcodegen/QrCode.cpp:67-156 | digits, text, bytes and designators of every length round-trip through their segment |
| `SegmentStreams.GetTotalBits` | external/qrcodegen/QrCode.cpp:177-191 | if not -1, exactly the length of the concatenated bit string; -1 exactly if a count does not fit its field or the length exceeds INT_MAX; no intermediate sum overflows |
| `SegmentStreams.SegmentHeader` | external/qrcodegen/QrCode.cpp:289-293 | every segment begins with its four mode bits, its count follows in a field of the width published for the mode and the range of versions, and then its data |
| `SegmentStreams.ParseOneInverts` | external/qrcodegen/QrCode.cpp:289-293 | a well-formed segment is parsed back whatever follows it |
| `SegmentStreams.ParseInverts` | external/qrcodegen/QrCode.cpp:287-295 | any list of well-formed segments is parsed back up to the terminator |
| `Encoder.PaddingEnds` | external/qrcodegen/QrCode.cpp:297-308 | the padded string starts with the data, and what follows reads as the end of the stream |
| `Encoder.PaddingContents` | external/qrcodegen/QrCode.cpp:297-313 | with used = min(n, (length + 11) / 8), the bits after the data are zero up to byte `used`, and from there the bytes are alternately 0xEC and 0x11 |
| `Encoder.CodewordsContents` | external/qrcodegen/QrCode.cpp:287-313 | the same of the data codewords of any segments that fit |
| `Encoder.AppendPadBytes` | external/qrcodegen/QrCode.cpp:306-308 | alternating 0xEC and 0x11 up to exactly the capacity |
| `Encoder.Pad` | external/qrcodegen/QrCode.cpp:297-308 | terminator, alignment and pad bytes; no assertion is reachable |
| `Encoder.FindVersion` | external/qrcodegen/QrCode.cpp:260-279 | the least version of the range that fits |
| `Encoder.BoostLevel` | external/qrcodegen/QrCode.cpp:281-285 | never lower than requested; with boost the highest level that still fits |
| `Encoder.Concatenate` | external/qrcodegen/QrCode.cpp:287-295 | no field overflows and the length equals the sum computed before |
| `Encoder.ComputeCodewords` | external/qrcodegen/QrCode.cpp:287-313 | exactly `getNumDataCodewords` bytes |
| `Encoder.EncodeSegments` | external/qrcodegen/QrCode.cpp:255-317 | invalid arguments are refused; too long exactly if no version of the range fits; otherwise least version, never a lower level, highest fitting level with boost, forced or least-penalty mask, and the symbol holds the segments |
| `EndToEnd.CodewordsHoldSegments` | external/qrcodegen/QrCode.cpp:287-313 | the data codewords parse back to the segments |
| `EndToEnd.SegmentsSurvive` | external/qrcodegen/QrCode.cpp:255-360 | for every list of well-formed segments that fits, every version, level and mask: the finished symbol is read back as exactly these segments |
| `EndToEnd.EncodedSymbolReadsBack` | external/qrcodegen/QrCode.cpp:255-317 | every symbol `encodeSegments` returns reads back as its segments |
| `EndToEnd.PayloadsSurvive` | external/qrcodegen/QrCode.cpp:67-360 | digits, text, bytes and designators that fit come back unchanged from the modules alone |
| `EndToEnd.IsNumericText` | external/qrcodegen/QrCode.cpp:203-210 | true exactly for strings of digits |
| `EndToEnd.IsAlphanumericText` | external/qrcodegen/QrCode.cpp:194-200 | true exactly for strings over the charset |
| `EndToEnd.MakeSegments` | external/qrcodegen/QrCode.cpp:123-138 | no segment for the empty text, otherwise one segment of the most compact mode; refuses only byte texts longer than INT_MAX |
| `EndToEnd.SegmentSize` | external/qrcodegen/QrCode.cpp:67-156 | the number of bits of a whole segment of each mode, in closed form |
| `EndToEnd.MostCompact` | external/qrcodegen/QrCode.cpp:123-138 | in every version the mode chosen takes fewer bits than any other segment that shows the same text |
| `EndToEnd.TextOfPayloads` | external/qrcodegen/QrCode.cpp:123-138 | the segments chosen for a text show that text |
| `Capacity.LargestSymbol` | external/qrcodegen/QrCode.cpp:727-731 | no version holds more data at the low level than version 40 |
| `Capacity.BinaryCapacity` | external/qrcodegen/QrCode.hpp:268-273 | bytes fit some version at the low level if and only if there are at most 2953 of them |
| `Capacity.EncodeBinary` | external/qrcodegen/QrCode.cpp:249-252 | refuses more than INT_MAX bytes; is too long exactly if no version fits at the requested level; otherwise least version, level at least as requested and the highest that fits, least-penalty mask; reads back as the bytes; at the low level it succeeds if and only if there are at most 2953 |
| `Capacity.TextCapacity` | external/qrcodegen/QrCode.hpp:258-264 | any text of up to 2953 bytes fits at the low level, whatever mode is chosen |
| `Capacity.EncodeText` | external/qrcodegen/QrCode.cpp:243-246 | is too long exactly if no version fits at the requested level; otherwise least version, level at least as requested and the highest that fits, least-penalty mask; reads back as the text; at the low level any text of up to 2953 bytes succeeds |
| `Varint.EncodeVarint` | generate_genesis.py:3-9 | the loop computes the encoding of every natural number and refuses negative ones |
| `Varint.DecodeInverts` | generate_genesis.py:3-9 | decoding an encoding followed by any trailer returns the number and exactly that trailer |
| `Varint.PrefixFree` | generate_genesis.py:3-9 | no encoding is a prefix of another number's encoding |
| `Varint.EncodeShape` | generate_genesis.py:3-9 | longer encodings do not end in zero, and exactly the last byte is below 128 |
| `Varint.EncodeGroups` | generate_genesis.py:3-9 | byte k holds the k-th group of seven bits, counted from the least significant |
| `Varint.EncodeMinimal` | generate_genesis.py:3-9 | no byte string that decodes to the number is shorter, and none of the same length is different |
| `Varint.CanonicalIffNoFinalZero` | generate_genesis.py:3-9 | a string that decodes is the encoding if and only if it has no redundant final zero byte |
| `Varint.ReadFieldsInverts` | generate_genesis.py:20-30 | a concatenation of fields of known kinds parses back to the fields |
| `Varint.WriteInjective` | generate_genesis.py:20-30 | field lists of the same kinds with equal bytes are equal |
| `Varint.GenerateGenesisTx` | generate_genesis.py:20-30 | the genesis transaction is the concatenation of its seven fields and parses back to them |

## Left out

- `toSvgString`, the getters and the texts of exceptions: output formatting without a hard property.
- KANJI segments have a mode but no encoder in the source; the parser keeps their bits unread.
- The error-correcting decoder as an algorithm: `Damage` describes its result and proves it unique, not how to find it.
- Correction of damaged format bits: the reader takes the first copy as it is, and the minimum distance of the 32 format words and 34 version words is not proved.
- `isFunction.clear()` at the end of the constructor: the marks are kept, so that contracts can mention them.
- `QrSegment` with a negative character count: the count is a natural number, so the check in lines 163 and 172 of `QrCode.cpp` is not modelled.
- Segments.MakeNumeric: the character counter is unbounded, so strings longer than INT_MAX, for which the source's counter overflows, are encoded instead.
- Segments.MakeAlphanumeric: the character counter is unbounded in the same way.
- Penalty.GetPenaltyScore: the row scanner and the column scanner of the source are the same text with the axes exchanged; `LinePenalty.ScanLine` models both, on a copy of the line.
- Masking.ChooseMask: LONG_MAX is taken as the least value that the language permits for it.
- Interleaving.AddEccAndInterleave: states its result for any block count and lengths with `rawCodewords / numBlocks >= blockEccLen`; that all table entries meet this is `Tables.TableFacts`.
- ReedSolomon.ReedSolomonComputeRemainder: an empty divisor, for which the source throws `out_of_range`, is excluded; the divisor has the tabulated degree wherever the function is called.
- Varint.GenerateGenesisTx: returns the bytes; writing them as hexadecimal digits and printing them is not modelled.
- Parameters outside versions 1 to 40 of the internal functions `numCharCountBits` and `getTotalBits`: all callers check the version first.
- The rest of the repository: `src/`, `deploy/`, `contrib/`, `cmake/`, `translations/` and the one-off scripts.
