# A verified model of the QR Code encoder, the ALU and the RISC-V simulator

This project models two parts of the repository and proves properties of them in Dafny. `dafny verify dfyconfig.toml`
checks all of it. The loops that compute on a buffer (field product, divisor and remainder, interleaving, codeword scan,
mask, penalty scan, bit buffer, segments, padding, image loading) and the loops of the division programs are methods with
invariants, proved against a function that says what they leave behind; lemmas about those functions state what the code
is for. The loops that only draw the fixed shapes of function modules are not modelled.

**The QR Code encoder** (`software/programs/qr_code/lib/qrcodegen.c`, an implementation of ISO/IEC 18004).

- `Bytes`, `Field`, `GeneratorElement`, `Polynomials`, `ReedSolomon`, `Distance`: arithmetic in GF(2^8/0x11D), the
  divisor and remainder loops, and the distance of the code. Bytes are sequences of eight bits. All field laws follow
  from polynomials over GF(2) acting on a byte; there is no table of products.
- `Interleave`: the strided in-place loops and the block-by-block reference of the test program
  (`qrcodegen-test.c`), both proved equal to one description of which byte goes where.
- `Grid`, `Zigzag`, `Mask`, `MaskSearch`: the packed grid, the scan that places codewords, the masks and format bits,
  and the search for the best mask.
- `ScanPath`, `MaskPictures`: the path of the scan module by module, and masks and format bits as the standard draws them.
- `RunLengths`, `Penalty`: the streaming penalty scan, against a score defined on run-length encodings.
- `LinePositions`, `ScoreExamples`: that score said by the positions of modules, without runs, and its value for two
  families of grids.
- `BitBuffer`, `Segments`, `BitStream`, `Selection`: segments, the data bit string, and the choice of version and level.
- `StreamLayout`: the bit string in the numbers of the standard: indicators, widths, lengths, characters and padding.
- `Symbol`, `Encoder`, `TextEncoder`: a reader of finished symbols, the whole encoding call with its two reused buffers,
  and the calls that encode a text or bytes. The last theorem is that the symbol of a text reads back as the text.

**The hardware ALU and its golden model** (`rtl/alu/alu.sv`, `rtl/alu/division.py`, `rtl/alu/binary_longdiv.py`,
`software/simulator/src/rv32i_simulator.c`; RISC-V Instruction Set Manual, Volume I, version 2.2).

- `Words`, `Division`, `Divider`, `Alu`: 32-bit words with explicit wrap-around, the two division programs, the clocked
  divider as a state machine over all runs, and the shifter, multiplier and output of the ALU.
- `Memory`, `Instructions`, `Simulator`: the segmented memory, the decoding of an instruction word with shifts and masks,
  one step of the simulator, and what every run keeps.
- `InstructionSet`: what the instructions compute in the terms of the manual, apart from the functions that simulator and
  ALU models share.

`Arithmetic` and `Counting` hold facts about division and about the size of finite sets.

## Conventions

- In the encoder a byte is a sequence of bits, most significant first, because the C code works on its bits; in the
  simulator's memory it is a number below 256.
- Where the C code changes a buffer, the method's contract gives the whole new content, and says which bytes are kept.
- The encoder's per-version data are parameters: block layouts, capacities, the function modules and the colors they get,
  and the fifteen-bit format words. The constraints on them are `Interleave.Layout.Valid`, `Mask.CoversFormat` and
  `Encoder.FitsVersion`.
- An `assert` of the C code is proved where it is about values that the code computed, and is a precondition where it is
  about the caller's arguments.

## Where the code and its description differ

- `rv32i_simulator.c` line 699 computes the end of a segment in 32 bits. A segment that ends at or beyond 2^32 covers no
  address. `Memory.SegmentCoverage` states exactly when a segment covers an address, and `Memory.LastPageUnmapped` gives
  an example.
- SLTIU compares with the immediate before sign extension (line 275) and JALR keeps bit 0 of its target (line 383). The
  model does what the code does. `Simulator.SltiuAgrees`, `Simulator.SltiuAgreesAlways` and `Simulator.JalrAgrees` say
  exactly when that is what the instruction set says, `Simulator.SltiuDiffers` and `Simulator.JalrKeepsBitZero` show
  where it is not, and `Simulator.OpImmWritesAluOut` shows that SLTIU is where ALU and simulator disagree.
- `divide_unsigned` is right only if the quotient fits the width and its 32-bit masks cut nothing off.
  `Division.MaskedDivides` states the condition in both directions; `Division.FiveBitsTooFew` and
  `Division.DividendTooLong` are inputs for which it fails.

## Model

| member | source | states |
|---|---|---|
| Field.ReedSolomonMultiply | software/programs/qr_code/lib/qrcodegen.c:405-413 | the loop over the bits of one operand returns the field product of the two bytes |
| Field.MulIsReducedProduct | software/programs/qr_code/lib/qrcodegen.c:403-413 | a byte is the product of two others if and only if it is their carry-less product minus a polynomial multiple of 0x11D, so the shift-and-xor loop is multiplication in GF(2)[x]/0x11D and nothing else |
| Field.ResidueUnique | software/programs/qr_code/lib/qrcodegen.c:403-413 | the byte left after taking away a multiple of 0x11D is unique, for polynomials of any length |
| Field.MulDistributes | software/programs/qr_code/lib/qrcodegen.c:403-413 | multiplication distributes over exclusive or on both sides |
| Field.MulCommutes | software/programs/qr_code/lib/qrcodegen.c:403-413 | the two operands, of which the loop treats one bit by bit and adds the other, can be exchanged |
| Field.MulAssociates | software/programs/qr_code/lib/qrcodegen.c:403-413 | multiplication is associative |
| Field.MulOne | software/programs/qr_code/lib/qrcodegen.c:403-413 | one is the unit |
| Field.ActCommutes | software/programs/qr_code/lib/qrcodegen.c:403-413 | polynomials acting on a byte by Horner's rule with reduction at each step commute, whatever their lengths |
| GeneratorElement.TwoHasOrder255 | software/programs/qr_code/lib/qrcodegen.c:370-379 | the powers of 0x02 return to one after 255 steps and not before |
| GeneratorElement.PowersDistinct | software/programs/qr_code/lib/qrcodegen.c:370-379 | the 255 powers of 0x02 are different |
| GeneratorElement.TwoGenerates | software/programs/qr_code/lib/qrcodegen.c:368-371 | 0x02 is a generator element: every non-zero byte is one of its first 255 powers |
| GeneratorElement.Inverse | software/programs/qr_code/lib/qrcodegen.c:403-413 | every non-zero byte has an inverse |
| GeneratorElement.NoZeroDivisors | software/programs/qr_code/lib/qrcodegen.c:403-413 | a product is zero if and only if one of the factors is |
| Polynomials.EvalMul | software/programs/qr_code/lib/qrcodegen.c:361-381 | the value of a product of polynomials is the product of the values |
| Polynomials.LinearFactor | software/programs/qr_code/lib/qrcodegen.c:373-378 | the coefficients of a product with (x - r), which is how the divisor loop updates its bytes |
| ReedSolomon.GeneratorRoots | software/programs/qr_code/lib/qrcodegen.c:368-371 | the generator polynomial of degree d is zero exactly at 2^0 to 2^(d-1) |
| ReedSolomon.ReedSolomonComputeDivisor | software/programs/qr_code/lib/qrcodegen.c:361-381 | the array receives the product of (x - 2^i) for i < degree without its leading one, and nothing past it changes |
| ReedSolomon.RemainderDivides | software/programs/qr_code/lib/qrcodegen.c:384-398 | data moved up by the divisor's degree is a multiple of the divisor plus the remainder, for every monic divisor |
| ReedSolomon.ReedSolomonComputeRemainder | software/programs/qr_code/lib/qrcodegen.c:387-398 | the result is the remainder of the data as it was on entry, also when both lie in one buffer, and the rest of the buffer is kept |
| ReedSolomon.CodewordIsMultiple | software/programs/qr_code/lib/qrcodegen.c:293-323 | a block followed by its error correction bytes is a multiple of the generator polynomial |
| ReedSolomon.SyndromesVanish | software/programs/qr_code/lib/qrcodegen.c:361-398 | a block of any length followed by its error correction bytes is zero at 2^i for every i below the degree |
| Distance.SparseVanishes | software/programs/qr_code/lib/qrcodegen.c:361-398 | a word with at most d non-zero bytes at different locations whose first d power sums are zero is zero: one error position is eliminated at a time |
| Distance.VanishingWordsFarApart | software/programs/qr_code/lib/qrcodegen.c:361-398 | two different words of at most 255 bytes that are both zero at d successive powers of two differ in more than d bytes |
| Distance.MinimumDistance | software/programs/qr_code/lib/qrcodegen.c:361-398 | different data give blocks that differ in at least d+1 bytes, for every degree d and data plus error correction up to 255 bytes |
| Distance.EccUnique | software/programs/qr_code/lib/qrcodegen.c:384-398 | bytes appended to the data make it zero at the generator's roots if and only if they are the computed remainder |
| Distance.UniqueDecoding | software/programs/qr_code/lib/qrcodegen.c:361-398 | a word within d/2 errors of a block is so for one block of data only |
| Interleave.LayoutSizes | software/programs/qr_code/lib/qrcodegen.c:300-305 | short and long blocks together hold exactly the data bytes, and with the error correction bytes exactly all codewords |
| Interleave.PlaceThenCell | software/programs/qr_code/lib/qrcodegen.c:312-324 | every byte of every block goes to a place below the number of codewords, and no two bytes share one |
| Interleave.CellThenPlace | software/programs/qr_code/lib/qrcodegen.c:312-324 | every place below the number of codewords receives a byte |
| Interleave.CopyDataBytes | software/programs/qr_code/lib/qrcodegen.c:316-320 | the strided loop with its step back for the short blocks writes each data byte of the block to its place, leaving all places written before |
| Interleave.CopyCheckBytes | software/programs/qr_code/lib/qrcodegen.c:321-322 | the second strided loop writes each error correction byte of the block to its place |
| Interleave.AddEccAndInterleave | software/programs/qr_code/lib/qrcodegen.c:297-325 | the result is the interleaving of the data that was in the buffer on entry; the data are intact afterwards, the scratch area is only the bytes just after them, and nothing past the codewords is written |
| Interleave.MakeBlock | software/programs/qr_code/lib/qrcodegen-test.c:125-135 | the reference's block holds its data, one unused byte if short, and its error correction bytes |
| Interleave.ReadColumns | software/programs/qr_code/lib/qrcodegen-test.c:139-153 | reading the blocks column by column and skipping the unused bytes gives the same interleaving |
| Interleave.AddEccAndInterleaveReference | software/programs/qr_code/lib/qrcodegen-test.c:108-157 | the simple block-by-block form returns exactly what the in-place form stores |
| Interleave.Deinterleave | software/programs/qr_code/lib/qrcodegen.c:312-324 | collecting the bytes of a block from the output gives back its data followed by its error correction bytes |
| Interleave.OutputCommon | software/programs/qr_code/lib/qrcodegen.c:312-320 | by place: the output begins with byte 0 of every block in order, then byte 1 of every block, and so on, block i beginning in the data where i short or long blocks end |
| Interleave.OutputLast | software/programs/qr_code/lib/qrcodegen.c:312-320 | then come the last data bytes of the long blocks, which are the last ones |
| Interleave.OutputChecks | software/programs/qr_code/lib/qrcodegen.c:321-322 | then byte 0 of the error correction of every block, byte 1, and so on |
| Interleave.InterleavedDistance | software/programs/qr_code/lib/qrcodegen.c:297-325 | outputs for different data differ in more places than a block has error correction bytes, when a block has at most 255 bytes |
| Grid.GetModuleBounded | software/programs/qr_code/lib/qrcodegen.c:772-777 | reads the module at the coordinates from the packed bytes |
| StreamLayout.ModuleBit | software/programs/qr_code/lib/qrcodegen.c:775-776 | module i is bit i mod 8, counted from the least significant, of byte i / 8 + 1, as a number |
| Grid.SetModuleBounded | software/programs/qr_code/lib/qrcodegen.c:781-791 | changes the module at the coordinates and no other, and no other byte of the buffer |
| Grid.SetModuleUnbounded | software/programs/qr_code/lib/qrcodegen.c:795-799 | changes the module if it lies in the grid and leaves the whole grid as it was otherwise |
| Zigzag.VisitInGrid | software/programs/qr_code/lib/qrcodegen.c:583-590 | every step of the scan is at a module of the grid outside column 6, and the module tells the step: none is visited twice |
| Zigzag.VisitsDistinct | software/programs/qr_code/lib/qrcodegen.c:583-590 | two steps that visit the same module are the same step |
| Zigzag.VisitCovers | software/programs/qr_code/lib/qrcodegen.c:583-590 | every module outside column 6 is visited, for every odd size above 6 |
| ScanPath.ScanStart | software/programs/qr_code/lib/qrcodegen.c:583-590 | for the sizes of QR Codes the first module is the lower right corner and the second its left neighbour |
| ScanPath.ScanStep | software/programs/qr_code/lib/qrcodegen.c:582-599 | from each module to the next: left within a row, then up in even pairs of columns and down in odd ones, then to the next pair in the same row, over the timing column; so consecutive modules are neighbours |
| Zigzag.FreeAreLight | software/programs/qr_code/lib/qrcodegen.c:577-602 | when column 6 is dark, the modules drawn on are exactly the light ones, so their number decides whether all bits fit |
| Zigzag.DrawStep | software/programs/qr_code/lib/qrcodegen.c:591-595 | at each step the module visited is dark now if and only if it was dark before drawing began, so no drawn bit is taken for a function module |
| Zigzag.DrawModule | software/programs/qr_code/lib/qrcodegen.c:591-595 | draws the next bit on a light module, and otherwise changes nothing |
| Zigzag.DrawCodewords | software/programs/qr_code/lib/qrcodegen.c:579-602 | the grid becomes the initial one with the data bits on its free modules in scan order; the final assertion holds if and only if there are enough free modules |
| Zigzag.ReadBack | software/programs/qr_code/lib/qrcodegen.c:575-602 | reading along the scan returns the data bits and then light remainder modules; function modules and everything else are unchanged |
| Mask.MaskInvolution | software/programs/qr_code/lib/qrcodegen.c:605-609 | applying the same mask twice changes nothing |
| MaskPictures.MaskIsPicture | software/programs/qr_code/lib/qrcodegen.c:618-626 | each of the eight masks inverts exactly the modules that its tile in the standard shows, repeated in both directions, for all coordinates |
| MaskPictures.FormatPlaces | software/programs/qr_code/lib/qrcodegen.c:530-545 | which bit of the format word is at which coordinates in both copies, and the dark module |
| MaskPictures.FormatElsewhere | software/programs/qr_code/lib/qrcodegen.c:530-545 | no module at other coordinates changes |
| Mask.FormatPositions | software/programs/qr_code/lib/qrcodegen.c:530-545 | the 31 drawn positions are inside the grid and different, for every size of at least 21 |
| Mask.MaskCommutesWithFormat | software/programs/qr_code/lib/qrcodegen.c:516-546 | masking and drawing format bits can be exchanged when the format modules are function modules |
| Mask.FormatOverwrites | software/programs/qr_code/lib/qrcodegen.c:285 | drawing format bits replaces all that was left of earlier ones |
| Mask.DrawFormatBits | software/programs/qr_code/lib/qrcodegen.c:530-545 | both copies of the fifteen bits and the dark module are drawn, and no other module changes |
| Mask.ApplyMask | software/programs/qr_code/lib/qrcodegen.c:610-633 | inverts exactly the modules outside the function modules on which the pattern says so |
| MaskSearch.TrialIsFinished | software/programs/qr_code/lib/qrcodegen.c:271-281 | a trial scores the very symbol that encoding with this mask alone gives, whatever format bits are left over, and undoing it restores everything but format modules |
| MaskSearch.ChooseMask | software/programs/qr_code/lib/qrcodegen.c:268-285 | the automatic choice scores no more than any of the eight symbols that a fixed mask would give, and of equal ones it has the lowest number; the final symbol is the one that asking for this mask would give |
| RunLengths.RunsEncode | software/programs/qr_code/lib/qrcodegen.c:643-661 | the run lengths describe the line, and only the first run can be empty |
| RunLengths.EncodingUnique | software/programs/qr_code/lib/qrcodegen.c:643-661 | no other list of run lengths describes it |
| RunLengths.RunsAfterLight | software/programs/qr_code/lib/qrcodegen.c:743-744 | a light border before a line lengthens the first run |
| RunLengths.RunsBeforeLight | software/programs/qr_code/lib/qrcodegen.c:731-735 | a light border after a line lengthens the last run or adds one |
| RunLengths.FinderScoreCounts | software/programs/qr_code/lib/qrcodegen.c:718-726 | the score is the number of 1:1:3:1:1 patterns with four units of light after them plus the number with four before them |
| LinePositions.RunScoreByPositions | software/programs/qr_code/lib/qrcodegen.c:648-654 | without runs: the run penalty of a line is the number of windows of five modules of one color plus twice the number of those that begin a run |
| LinePositions.EndsAndStarts | software/programs/qr_code/lib/qrcodegen.c:718-738 | there are as many patterns in the run lengths as places in the line where dark, light, dark, light and dark stretches of n, n, 3n, n and n modules begin with light borders, beyond the ends of the line too |
| LinePositions.LineScoreByPositions | software/programs/qr_code/lib/qrcodegen.c:643-662 | the penalty of a line by the positions of its modules alone: windows, beginnings, and 40 for each pattern |
| Penalty.FinderPenaltyAddHistory | software/programs/qr_code/lib/qrcodegen.c:742-747 | the seven entries are the last seven runs, newest first, with the light border added to the first run of the line |
| Penalty.FinderPenaltyCountPatterns | software/programs/qr_code/lib/qrcodegen.c:718-726 | after a light run, the history tells how many patterns end at it |
| Penalty.ScanModule | software/programs/qr_code/lib/qrcodegen.c:648-660 | one more module keeps counter, history and points those of the line so far |
| Penalty.FinderPenaltyTerminateAndCount | software/programs/qr_code/lib/qrcodegen.c:730-738 | at the end of a line the points are the declared score of the line between light borders |
| Penalty.RowPenalty | software/programs/qr_code/lib/qrcodegen.c:643-663 | a row scores n-2 for each maximal run of length n of at least 5, and 40 for each pattern in the run lengths of the padded row |
| Penalty.ColumnPenalty | software/programs/qr_code/lib/qrcodegen.c:665-685 | a column scores its runs and patterns as the row of the transposed grid would |
| Penalty.ColumnPassIsRowPass | software/programs/qr_code/lib/qrcodegen.c:664-685 | the column pass gives the row pass of the transposed grid |
| Penalty.CountBlocks | software/programs/qr_code/lib/qrcodegen.c:687-696 | counts the 2*2 blocks of one color, overlapping ones included |
| Penalty.CountDarkModules | software/programs/qr_code/lib/qrcodegen.c:699-705 | counts the dark modules |
| Penalty.BalanceIsLeast | software/programs/qr_code/lib/qrcodegen.c:706-710 | for an odd number of modules the balance term is the least k with (45-5k)% <= dark/total <= (55+5k)%, and lies between 0 and 9 |
| Penalty.GetPenaltyScore | software/programs/qr_code/lib/qrcodegen.c:638-713 | the streaming scan returns the declared score of the grid: all rows, all columns, blocks and balance |
| ScoreExamples.OneColorScore | software/programs/qr_code/lib/qrcodegen.c:638-713 | a grid of one color, of any size n >= 5, scores 2n(n - 2) + 3(n - 1)^2 + 90 |
| ScoreExamples.CheckerboardScore | software/programs/qr_code/lib/qrcodegen.c:638-713 | a checkerboard of any odd size from 5 on scores 0 |
| Penalty.ScoreBound | software/programs/qr_code/lib/qrcodegen.c:709-711 | for every odd size up to 177 the score lies between 0 and 2568888 |
| RunLengths.FinderScoreBound | software/programs/qr_code/lib/qrcodegen.c:711 | each dark run of at least three modules pays for at most two patterns |
| BitBuffer.AppendBitsToBuffer | software/programs/qr_code/lib/qrcodegen.c:186-192 | appends the bits of the value, most significant first, to what the buffer holds, and touches no byte after them |
| Segments.GroupBitsLength | software/programs/qr_code/lib/qrcodegen.c:850-874 | n digits take ceil(10n/3) bits and n characters ceil(11n/2) |
| StreamLayout.PayloadLengths | software/programs/qr_code/lib/qrcodegen.c:851-874 | the length is the least integer not below 10n/3 or 11n/2, or 8n, or 13n, and it overflows exactly from 9831, 5958, 4096 and 2521 characters on |
| StreamLayout.GroupsOfText | software/programs/qr_code/lib/qrcodegen.c:905-919 | three digits are written as 100a + 10b + c in ten bits, two in seven and one in four; two characters as 45a + b in eleven bits and one in six |
| Segments.GroupFits | software/programs/qr_code/lib/qrcodegen.c:188-189 | the number made of a group of digits or characters fits the bits it gets |
| Segments.GroupsRoundTrip | software/programs/qr_code/lib/qrcodegen.c:905-919 | decoding group by group returns the digits, whatever bits follow |
| Segments.CharsetInverse | software/programs/qr_code/lib/qrcodegen.c:94 | the 45 characters and their positions determine each other |
| StreamLayout.CharsetIs | software/programs/qr_code/lib/qrcodegen.c:94 | the 45 characters are those of the string in the code, in its order |
| Segments.TextRoundTrip | software/programs/qr_code/lib/qrcodegen.c:893-957 | a text over the mode's alphabet is recovered from the bits of its segment |
| Segments.AppendGroup | software/programs/qr_code/lib/qrcodegen.c:912-919 | the number of a group, complete or last, fits its bits and the buffer, and is appended to the groups before it |
| Segments.MakeNumeric | software/programs/qr_code/lib/qrcodegen.c:893-923 | the buffer holds the groups of three digits in order, as many bits as calcSegmentBitLength says, and every append meets its precondition |
| Segments.MakeAlphanumeric | software/programs/qr_code/lib/qrcodegen.c:927-957 | the buffer holds the pairs of characters in order, as many bits as calcSegmentBitLength says, and every append meets its precondition |
| Segments.MakeEci | software/programs/qr_code/lib/qrcodegen.c:961-984 | the buffer holds the one, two or three byte designator of the value |
| Segments.EciRoundTrip | software/programs/qr_code/lib/qrcodegen.c:966-981 | a designator tells its own length and its value |
| StreamLayout.EciValue | software/programs/qr_code/lib/qrcodegen.c:966-981 | as a number the designator is the value, 0x8000 plus the value, or 0xC00000 plus the value, in one, two or three bytes |
| BitStream.GetTotalBits | software/programs/qr_code/lib/qrcodegen.c:987-1008 | returns the number of bits of the segments, and LENGTH_OVERFLOW exactly when a count does not fit its field or the number passes INT16_MAX |
| StreamLayout.HeaderSize | software/programs/qr_code/lib/qrcodegen.c:1011-1024 | for versions 1-9, 10-26 and 27-40 a segment has 14, 16 or 18 bits besides its payload if numeric, 13, 15 or 17 if alphanumeric, 12 or 20 for bytes, 12, 14 or 16 for Kanji, and 4 for ECI |
| StreamLayout.IndicatorBits | software/programs/qr_code/lib/qrcodegen.c:238 | a segment begins with 0001, 0010, 0100, 1000 or 0111, by mode |
| StreamLayout.CountAndPayload | software/programs/qr_code/lib/qrcodegen.c:239-244 | then comes the number of characters in binary, up to where the payload begins |
| StreamLayout.SegmentInStream | software/programs/qr_code/lib/qrcodegen.c:236-245 | every segment lies in the stream where the segments before it end |
| BitStream.AppendSegments | software/programs/qr_code/lib/qrcodegen.c:235-245 | after all segments the bit length is what getTotalBits returned |
| BitStream.AppendTerminator | software/programs/qr_code/lib/qrcodegen.c:247-255 | the terminator and the alignment end on a byte boundary within the capacity |
| BitStream.AppendPadding | software/programs/qr_code/lib/qrcodegen.c:257-259 | alternating bytes 0xEC and 0x11 fill the buffer up to the capacity |
| BitStream.WriteDataBits | software/programs/qr_code/lib/qrcodegen.c:233-259 | the buffer holds segments, terminator, alignment and padding, ending exactly at the capacity, whatever it held before |
| StreamLayout.EncodedTail | software/programs/qr_code/lib/qrcodegen.c:247-259 | after the segments come at least four zeros if there is room, zeros to the end of the byte, and then 0xEC and 0x11 in turn up to the capacity |
| StreamLayout.BitsOfByte | software/programs/qr_code/lib/qrcodegen.c:241 | the bits of a byte are taken from the most significant on |
| BitStream.DecodeSegment | software/programs/qr_code/lib/qrcodegen.c:236-244 | a reader at the front of a segment reads its mode, count and payload, and goes on after it |
| BitStream.StreamRoundTrip | software/programs/qr_code/lib/qrcodegen.c:233-259 | reading mode, count and payload until the terminator or the end recovers the list of segments, for every list that fits |
| Selection.SelectVersion | software/programs/qr_code/lib/qrcodegen.c:213-231 | succeeds if and only if some version of the range fits; the version is the least that does; the boosted level is the highest that fits and not below the one asked for; capacities need not grow |
| Symbol.ReadBlocksInverse | software/programs/qr_code/lib/qrcodegen.c:312-324 | collecting the data bytes of all blocks from the interleaved codewords gives back the data |
| Symbol.UnmaskedData | software/programs/qr_code/lib/qrcodegen.c:284-285 | undoing the mask of a finished symbol gives back all modules that are not function modules |
| Symbol.SymbolRoundTrip | software/programs/qr_code/lib/qrcodegen.c:233-286 | unmasking, scanning, deinterleaving and decoding a finished symbol recovers the segments, for every mask, format word and coloring of the function modules |
| Encoder.DrawModules | software/programs/qr_code/lib/qrcodegen.c:455-458 | the modules of a set take the given colors and no others change |
| Encoder.InitializeFunctionModules | software/programs/qr_code/lib/qrcodegen.c:419-425 | the buffer becomes a grid of the version's size in which exactly the function modules are dark |
| Encoder.SideLengths | software/programs/qr_code/lib/qrcodegen.c:423 | versions 1 to 40 have 21 to 177 modules a side, four more each |
| Encoder.WriteCodewords | software/programs/qr_code/lib/qrcodegen.c:233-262 | the second buffer receives the interleaved codewords of the segments' data bits |
| Encoder.DrawSymbol | software/programs/qr_code/lib/qrcodegen.c:263-265 | the grid holds the codewords along the scan and the colored function modules, and all bits have been drawn |
| Encoder.MaskSymbol | software/programs/qr_code/lib/qrcodegen.c:266-285 | reusing the second buffer for the function modules, the symbol is the finished one of the mask chosen |
| Encoder.EncodeSegmentsAdvanced | software/programs/qr_code/lib/qrcodegen.c:207-287 | the whole call: it fails, with an invalid size left in the buffer, if and only if no version of the range fits; otherwise version and level are the least and, when boosted, the highest that fit; every module of the symbol is the one that segments, version, level and mask determine, with the lowest-numbered best mask if none was asked for; and reading the symbol gives back the segments |
| TextEncoder.CopyText | software/programs/qr_code/lib/qrcodegen.c:152-153 | the buffer begins with the characters as bytes |
| TextEncoder.TextByteValue | software/programs/qr_code/lib/qrcodegen.c:152-153 | each byte is the number of its character |
| TextEncoder.ModeIsShortest | software/programs/qr_code/lib/qrcodegen.c:141-160 | the mode chosen for a text needs fewer bits than any other that can hold it |
| TextEncoder.MakeText | software/programs/qr_code/lib/qrcodegen.c:141-160 | the segment of the text is built in the temporary buffer, unless the buffer of the highest version is too short for it |
| TextEncoder.TextRead | software/programs/qr_code/lib/qrcodegen.c:141-160 | reading the segment of a text gives back the text, for digits, for the 45 characters and for any bytes |
| TextEncoder.TooLongForBuffer | software/programs/qr_code/lib/qrcodegen.c:142-151 | a segment too long for that buffer fits no version of the range, so giving up early loses nothing |
| TextEncoder.EncodeText | software/programs/qr_code/lib/qrcodegen.c:132-166 | from the text to the symbol in two buffers, the segment lying in the one that is later overwritten: it fails if and only if no version of the range has room for the text; otherwise reading the symbol gives back the text |
| TextEncoder.EncodeBinary | software/programs/qr_code/lib/qrcodegen.c:170-183 | the same for bytes that lie in the temporary buffer from the start |
| Division.RestoreInvariant | rtl/alu/division.py:12-25 | at every step the dividend is the quotient so far times the shifted divisor plus the remainder |
| Division.RestoreDivides | rtl/alu/division.py:9-27 | restoring division of any width gives the Euclidean quotient and remainder if and only if the quotient fits the width |
| Division.MaskedInvariant | rtl/alu/division.py:12-25 | with every new remainder cut to 32 bits, the dividend is still the quotient times the shifted divisor plus the remainder plus what was cut off |
| Division.MaskedDivides | rtl/alu/division.py:9-27 | for all dividends, divisors and widths the results are right if and only if the quotient fits the width, has 32 bits, and what the first subtraction leaves has 32 bits |
| Division.FiveBitsTooFew | rtl/alu/division.py:9-27 | an input for which it fails: 32 divided by 1 in the default five bits gives quotient 31 |
| Division.DividendTooLong | rtl/alu/division.py:18-27 | an input for which the 32-bit mask makes it fail: 3 * 2^32 divided by 2^32 gives 2 |
| Division.DivideUnsigned | rtl/alu/division.py:9-27 | for every dividend, divisor and positive width the loop returns the Euclidean quotient and remainder if and only if that condition holds; a zero divisor gives ones and the dividend, both cut to 32 bits |
| Division.DivideSigned | rtl/alu/division.py:30-38 | the result truncates toward zero if and only if the same condition holds of the magnitudes; for all 32-bit operands it agrees modulo 2^32 with the simulator, zero divisor and overflow included |
| Division.SignedParts | rtl/alu/division.py:35-38 | signs put on the quotient and remainder of the magnitudes give truncating division |
| Division.NextBit | rtl/alu/binary_longdiv.py:25-33 | shifting one more bit of the dividend into the remainder keeps quotient and remainder those of the bits seen |
| Division.LongdivBin | rtl/alu/binary_longdiv.py:20-36 | the loop divides the low 32 bits of the dividend; a zero divisor gives all ones and those bits |
| Division.MulBin | rtl/alu/binary_longdiv.py:38-46 | shift and add returns the product |
| Divider.DividerRegisters.ClockEdge | rtl/alu/alu.sv:57-75 | every register takes its next value from the values before the edge; the done latch too (lines 83-85) |
| Divider.Accepted | rtl/alu/alu.sv:59-67 | the accepting edge starts a division of the magnitudes |
| Divider.DividingStep | rtl/alu/alu.sv:68-73 | each later division edge produces one quotient bit in the 32-bit registers without overflow, whatever the operand inputs are by then |
| Divider.DivisionResult | rtl/alu/alu.sv:77-78 | after the 32nd division edge the outputs equal what the simulator writes for DIV, DIVU, REM and REMU, with division by zero and -2^31 / -1 included |
| Divider.CounterTellsStart | rtl/alu/alu.sv:57-85 | in every run, whatever the inputs do, a counter above zero belongs to an edge that accepted operands, and with the number of division edges since it adds up to 32 |
| Divider.DoneWhenComplete | rtl/alu/alu.sv:57-87 | in every run, without any hypothesis on the inputs, done is high during a division exactly when the last edge was the 32nd division edge after an accepting one; the outputs are then the simulator's result if the operation is still the one accepted |
| Divider.DoneOncePerStart | rtl/alu/alu.sv:57-87 | in every run an accepting edge completes at most once, and two never complete together: one pulse per start, and none without a start |
| Divider.DoneExactlyOnce | rtl/alu/alu.sv:57-87 | if operands and operation are held after one accepting edge, whatever the run does at other times, done is low for 32 cycles and high in the next, when the outputs are the simulator's result |
| Alu.LeftShift | rtl/alu/alu.sv:27-31 | reversing, shifting right and reversing again is a left shift by the low five bits |
| Alu.RightShift | rtl/alu/alu.sv:27-31 | the same shifter shifts right logically when not asked for sign bits |
| Alu.ArithmeticRightShift | rtl/alu/alu.sv:27-31 | with sign bits it computes the simulator's `sra`, for amounts below 32 |
| Alu.Products | rtl/alu/alu.sv:40-44 | the one signed 33 by 33 bit product gives MUL, MULH and MULHU as the simulator computes them |
| Alu.MixedProduct | rtl/alu/alu.sv:40-44 | it gives MULHSU too, where the simulator multiplies modulo 2^64 as unsigned numbers |
| Alu.AluRefinesSimulator | rtl/alu/alu.sv:89-110 | for all operands and every register instruction the simulator executes, divisions apart, the output is the value the simulator writes |
| Memory.SegmentCoverage | software/simulator/src/rv32i_simulator.c:696-704 | a segment covers its addresses if it ends below 2^32, and none at all otherwise, because the end is computed in 32 bits |
| Memory.UselessSegment | software/simulator/src/rv32i_simulator.c:699 | adding a segment that ends at 2^32 or beyond maps no address, whatever segments there are |
| Memory.LastPageUnmapped | software/simulator/src/rv32i_simulator.c:699 | an example: after the last 4096 addresses have been added to an empty memory, a write to any of them is lost and it reads as zero |
| Memory.CellsDistinct | software/simulator/src/rv32i_simulator.c:706-715 | the first segment that covers an address serves it inside its bytes, and different addresses never share a byte, even when segments overlap |
| Memory.ByteOfSegment | software/simulator/src/rv32i_simulator.c:706-715 | byte k of a segment is read at its start plus k, unless an earlier segment covers that address |
| Memory.WriteChangesOneByte | software/simulator/src/rv32i_simulator.c:716-729 | a write changes what is read at its own address, and that only in a writable segment; layout and read-only bytes are kept |
| Memory.AddSegmentKeepsReads | software/simulator/src/rv32i_simulator.c:735-747 | a new segment changes neither the value nor the writability of addresses mapped before |
| Memory.WriteBytesRead | software/simulator/src/rv32i_simulator.c:313-324 | after several writes at successive addresses modulo 2^32, every address holds the byte written to it if writable and its old byte otherwise |
| Memory.SegmentedMemory.constructor | software/simulator/src/rv32i_simulator.c:730-734 | starts without segments |
| Memory.SegmentedMemory.FindSegment | software/simulator/src/rv32i_simulator.c:696-704 | returns the first segment that covers the address, or -1 |
| Memory.SegmentedMemory.Read | software/simulator/src/rv32i_simulator.c:706-715 | returns the byte of the address, and 0 if it is not mapped |
| Memory.SegmentedMemory.Write | software/simulator/src/rv32i_simulator.c:716-729 | changes the one byte of the separately allocated arrays that serves the address |
| Memory.SegmentedMemory.AddSegment | software/simulator/src/rv32i_simulator.c:735-747 | adds a zero-filled segment behind the others |
| Memory.SegmentedMemory.LoadMemory | software/simulator/src/rv32i_simulator.c:454-459 | writes the image byte by byte; what cannot be written is dropped |
| Instructions.FieldBits | software/simulator/src/rv32i_simulator.h:8 | the shift-and-mask macro extracts exactly the bits it names |
| Instructions.FieldValue | software/simulator/src/rv32i_simulator.h:8 | as a number the field is the word divided by 2^lo, modulo 2 to the width |
| Instructions.SignExtendBits | software/simulator/src/rv32i_simulator.c:49-51 | the sign bit fills all bits above a number of fewer than 32 bits |
| Instructions.SignExtendValue | software/simulator/src/rv32i_simulator.c:49-51 | the extended word has the value that the bits represent in two's complement |
| Instructions.ImmediateIBits | software/simulator/src/rv32i_simulator.c:68-74 | the I immediate is the sign bit repeated, then instruction bits 31 to 20, as Figure 2.4 of the RISC-V manual says |
| Instructions.ImmediateSBits | software/simulator/src/rv32i_simulator.c:69-75 | the S immediate is the sign bit repeated, instruction bits 31 to 25, then bits 11 to 7 |
| Instructions.ImmediateBBits | software/simulator/src/rv32i_simulator.c:70-76 | the B immediate is the sign bit repeated, then instruction bits 7, 30 to 25 and 11 to 8, and a zero |
| Instructions.ImmediateUBits | software/simulator/src/rv32i_simulator.c:71-77 | the U immediate is instruction bits 31 to 12 followed by twelve zeros |
| Instructions.ImmediateJBits | software/simulator/src/rv32i_simulator.c:72-78 | the J immediate is the sign bit repeated, then instruction bits 19 to 12, 20 and 30 to 21, and a zero |
| Instructions.NestedFields | software/simulator/src/rv32i_simulator.c:80-95 | fields taken from the immediate or from the masked opcode are fields of the instruction |
| Instructions.AssembleBytesOf | software/simulator/src/rv32i_simulator.c:306-324 | the bytes that a store writes, put together as a load does, give the low part of the word, all of it for four bytes |
| Instructions.AssembleInjective | software/simulator/src/rv32i_simulator.c:282-303 | different bytes make different words |
| Simulator.Processor.constructor | software/simulator/src/rv32i_simulator.c:485-494 | all registers and the program counter are zero |
| Simulator.Processor.WriteRegister | software/simulator/src/rv32i_simulator.c:101 | a register other than x0 takes the value; x0 is never written |
| Simulator.Processor.StepOp | software/simulator/src/rv32i_simulator.c:107-210 | a register instruction sets its destination, unless that is x0, to the result that the hardware ALU is proved against, case by case of the 18 instructions, and changes no other register; reserved codes change nothing or return 2, as written |
| Simulator.Processor.StepOpImm | software/simulator/src/rv32i_simulator.c:211-278 | an immediate instruction is the register instruction on the extended immediate, except SLTIU, whose immediate is not extended; invalid shifts return 3 or 4 |
| Simulator.Processor.StepLoad | software/simulator/src/rv32i_simulator.c:279-305 | a load sets its destination to the bytes at the address, extended as the code says |
| Simulator.Processor.StepStore | software/simulator/src/rv32i_simulator.c:306-326 | a store writes the low bytes of a register and changes no register |
| Simulator.Processor.StepBranch | software/simulator/src/rv32i_simulator.c:327-371 | a branch changes the program counter only |
| Simulator.Processor.StepJalr | software/simulator/src/rv32i_simulator.c:379-387 | the target uses the register before the link is written to it, and keeps bit 0 |
| Simulator.Processor.StepJal | software/simulator/src/rv32i_simulator.c:372-378 | JAL links and jumps by the extended J immediate |
| Simulator.Processor.StepLui | software/simulator/src/rv32i_simulator.c:388-397 | LUI sets its register to the U immediate |
| Simulator.Processor.StepAuipc | software/simulator/src/rv32i_simulator.c:398-407 | AUIPC sets its register to the program counter plus the U immediate |
| Simulator.Processor.FetchInstruction | software/simulator/src/rv32i_simulator.c:63-66 | the instruction is the four bytes at the program counter, lowest first, addresses modulo 2^32 |
| Simulator.Processor.ExecuteStep | software/simulator/src/rv32i_simulator.c:62-441 | one call makes the whole machine, registers, program counter and every segment, take one step of the abstract machine, and returns its code |
| Simulator.StepIsSmall | software/simulator/src/rv32i_simulator.c:62-441 | a step changes one register that is not x0, or up to four writable bytes, and never both; it keeps x0, the segments and all read-only bytes |
| Simulator.EveryRun | software/simulator/src/rv32i_simulator.c:62-441 | from the initial state, for every program and memory and any number of steps, x0 is 0, the layout and the read-only bytes are those at the start, and every step is such a step |
| Simulator.StoredThenLoaded | software/simulator/src/rv32i_simulator.c:279-326 | a load of what was just stored returns it, cut and extended, if and only if each byte is writable or already had that value, for SB, SH, SW with LB, LH, LW, LBU, LHU |
| Simulator.StoreThenLoad | software/simulator/src/rv32i_simulator.c:279-326 | the same for two successive instructions executed by the machine, the second fetched after the first may have overwritten it |
| Simulator.OpWritesAluOut | software/simulator/src/rv32i_simulator.c:107-210 | stepping a register instruction other than a division puts the hardware ALU's output in the destination register and changes nothing else but the program counter |
| Simulator.OpImmWritesAluOut | rtl/alu/alu.sv:89-110 | an immediate instruction that is not rejected sets its destination to the ALU's output on the extended immediate, if and only if it is not SLTIU with a negative immediate and a register value between the immediate and its extension: the one place where ALU and simulator disagree |
| InstructionSet.BitwiseMeaning | software/simulator/src/rv32i_simulator.c:119-132 | bit by bit, in simulator and ALU: XOR is the sum modulo 2, OR the maximum and AND the product |
| InstructionSet.BitwiseSums | software/simulator/src/rv32i_simulator.c:119-132 | as numbers: XOR plus twice AND is the sum of the operands, and so is OR plus AND |
| InstructionSet.SumMeaning | software/simulator/src/rv32i_simulator.c:114-165 | ADD and SUB are congruent to sum and difference modulo 2^32 |
| InstructionSet.SignedMeaning | software/simulator/src/rv32i_simulator.c:144-146 | the signed value of a word is the one number from -2^31 to 2^31 - 1 congruent to it |
| InstructionSet.ComparisonMeaning | software/simulator/src/rv32i_simulator.c:143-152 | SLT and SLTU give 1 exactly for the smaller operand first, and of two different operands one order gives 1 |
| InstructionSet.ShiftMeaning | software/simulator/src/rv32i_simulator.c:133-142 | SLL multiplies modulo 2^32 and SRL divides by the power of two of the low five bits |
| InstructionSet.SraMeaning | software/simulator/src/rv32i_simulator.c:53-60 | SRA divides the signed value by a power of two, rounding down |
| InstructionSet.ProductMeaning | software/simulator/src/rv32i_simulator.c:177-193 | the high word, signed for MULH and MULHSU and unsigned for MULHU, and the low word of MUL make the exact product |
| InstructionSet.DivisionMeaning | software/simulator/src/rv32i_simulator.c:194-208 | the dividend is divisor times quotient plus a remainder smaller than the divisor and with the sign of the dividend; division by zero and overflow give the values of Table 6.1 |
| InstructionSet.InstructionFields | software/simulator/src/rv32i_simulator.c:80-86 | the fields as quotients and remainders of the instruction word |
| InstructionSet.OpcodeMap | software/simulator/src/rv32i_simulator.c:88-437 | which seven low bits select which kind of instruction, as in the opcode map of the manual, and what happens to all others |
| InstructionSet.SystemCodes | software/simulator/src/rv32i_simulator.c:408-430 | ECALL, the word 0x73, returns -2 and EBREAK, the word 0x100073, returns -1, as the header promises |
| InstructionSet.Rejections | software/simulator/src/rv32i_simulator.c:110-262 | exactly which register and immediate instructions change no register, and the codes 2, 3 and 4 |
| InstructionSet.BranchConditions | software/simulator/src/rv32i_simulator.c:333-364 | BEQ and BNE test that SUB gives zero; BLT, BGE, BLTU and BGEU test SLT and SLTU; other codes never branch |
| InstructionSet.JumpMeaning | software/simulator/src/rv32i_simulator.c:327-387 | branches, JAL and JALR go on at the program counter or the register plus the offset that Figure 2.4 reads from the instruction bits, modulo 2^32, and jumps leave the address of the next instruction |
| InstructionSet.UpperMeaning | software/simulator/src/rv32i_simulator.c:388-407 | LUI gives the upper twenty bits of the instruction word, AUIPC adds the program counter modulo 2^32 |
| InstructionSet.LoadMeaning | software/simulator/src/rv32i_simulator.c:282-303 | LW, LHU and LBU give the bytes as a little-endian number, LH and LB its two's complement value |
| InstructionSet.StoreMeaning | software/simulator/src/rv32i_simulator.c:306-324 | byte k of a store is the register divided by 256^k, modulo 256 |
| Simulator.SltiuAgrees | software/simulator/src/rv32i_simulator.c:273-276 | for each instruction and register value, SLTIU compares as the instruction set says if and only if the immediate is not negative or the register is not between the immediate and its extension |
| Simulator.SltiuAgreesAlways | software/simulator/src/rv32i_simulator.c:275 | it does so for all register values if and only if the immediate is below 0x800 |
| Simulator.SltiuDiffers | software/simulator/src/rv32i_simulator.c:275 | an example: immediate -2048 and register value 2048 give 0 instead of 1 |
| Simulator.JalrAgrees | software/simulator/src/rv32i_simulator.c:383 | JALR jumps to the sum with bit 0 cleared, as the instruction set says, if and only if the sum is even |
| Simulator.JalrKeepsBitZero | software/simulator/src/rv32i_simulator.c:383 | an example: `jalr x0, 0(x1)` with an odd address in x1 jumps to that odd address |

## Left out

- Tables and shapes by version: error correction tables, `getNumRawDataModules`, alignment positions, the rectangles and
  patterns that `initializeFunctionModules` and `drawLightFunctionModules` draw, and the BCH codes of format and version
  bits. They are finitely many constants, taken as parameters.
- Encoder.InitializeFunctionModules: takes the set of function modules as a parameter instead of drawing it shape by shape.
- Encoder.DrawModules: stands for `drawLightFunctionModules`, of which only this is used, that it changes no module
  outside the function modules.
- Mask.DrawFormatBits: the format word is a parameter; computing it from level and mask is not modelled.
- Encoder.EncodeSegmentsAdvanced: the data of the segments are values. `TextEncoder` passes the content of the temporary
  buffer; that is what the C code reads, because nothing writes to that buffer before all segments have been copied
  (`BitStream.WriteDataBits` modifies only the other one). Segments that share memory with the symbol's buffer are not
  modelled.
- TextEncoder.EncodeText: whether a text is numeric or alphanumeric is a predicate, not a loop over a C string.
- Kanji segments are read but not made.
- Segments.MakeNumeric: the text is a sequence of characters, not a C string with a terminator.
- Segments.MakeAlphanumeric: the search in the character set is a function of the character.
- MaskSearch.ChooseMask: `LONG_MAX` is 2^31 - 1, the least value that C allows.
- ReedSolomon.ReedSolomonComputeDivisor: the C code also asserts a degree of at most 30, which the proof does not need.
- Division.DivideUnsigned: negative arguments, which only `divide_signed` is for.
- Division.MulBin: a negative first operand, for which the Python loop does not end.
- The ALU's `unique case` and its one-hot selection are a match on the three bits of funct3; unknown (x) values, timing
  within a cycle and the unused reset input are not modelled.
- Divider.DoneWhenComplete: nothing is said of the outputs when the operation has changed since the accepting edge; the
  sign fix-up then uses the new operands.
- Alu.ArithmeticRightShift: a register SRA with an amount of 32 or more shifts by too much in C, which is undefined; the
  hardware uses the low five bits. `Simulator.Op` leaves the value of such a shift to a parameter.
- The simulator's `MUL` multiplies two `int32_t`, which C leaves undefined on overflow; the model wraps around. So does
  shifting a byte of 128 or more left by 24.
- Simulator.Processor.ExecuteStep: without the callbacks of ECALL and EBREAK and without trace functions; FENCE and
  control register instructions do what the code does with unknown instructions.
- Simulator.Processor.constructor: the register file is an array apart from all segment data, as in the C structure.
- Memory.SegmentedMemory.LoadMemory: for segmented memory only, and images with fewer than 2^31 bytes in the C code, whose
  loop counter is an `int`. The monolithic memory is not part of this model.
- Memory.SegmentedMemory.AddSegment: allocation does not fail.
- The pipelined processors, buses, peripherals, loaders, file formats, displays and test benches.
