# Verification of algorithms from the Otter browser sources

A Dafny model of five components of the Otter browser and the libraries it bundles, with proofs of what they promise:

* the **QR symbol encoder**: segments, version and level choice, Reed-Solomon protection, interleaving, zigzag drawing, masking
  and the penalty score, up to a reader that gets back what was encoded (`Galois` to `SymbolDecoder`), and what the parts look
  like in the terms of the standard (`StreamLaws`, `BlockLaws`, `MaskPatterns`, `CheckCodes`, `PenaltyLaws`, `PatternShapes`,
  `IntactPatterns`, `FinishedPatterns`);
* the **content blocking rule trie**: insertion into the trie on the heap and the recursive search, against a scan over all rules
  (`TrieShape`, `TrieSearch`, `TrieHits`, `TrieMissed`, `TrieRuns`, `TrieExact`, `PatternLaws`, `TrieSteps`, `RuleTrie`);
* the **index of applications by MIME type**: two linked structures that registration and deletion keep consistent
  (`MimeState`, `MimeRegistration`, `MimeRuns`, `MimeSteps`, `MimeIndex`);
* the **mouse gesture recogniser** (`GestureMoves`, `GestureLaws`, `MouseGestures`, `GestureTraces`);
* the **resolution of keyboard shortcuts** (`Shortcuts`, `ShortcutLaws`).

Where the source changes state, the model is a class or a method with loops, proved against a specification function or
predicate; what the source promises is then proved about the specification.

Main results:

* Whatever items are encoded, in whatever version, level and mask, the finished symbol is read back as these items from its modules
  alone (`SymbolDecoder.EncodeSymbol`, `SymbolDecoder.FinishedSymbolRoundTrip`): the reader takes the version from the size, level
  and mask from the format bits, unmasks, reads the free modules in zigzag order, de-interleaves the blocks and parses the segments.
  That the codewords always fit is `FunctionCount.FreeModules`: for every version, the drawn function patterns leave exactly as many
  modules free as the closed formula of the source says. Damage of up to half the correction bytes of each block leaves only one data
  sequence that the codewords can stand for (`SymbolDecoder.DamageIsCorrectable`); this rests on the minimum distance of the code,
  which is proved from the field axioms of the bit-level multiplication.
* The definitions the symbol rests on are fixed by laws in other terms: the zigzag order module by module, the masks by their
  pictures, format and version words as codes of distance 7 and 8, the penalty by the modules it counts, the capacities by the
  standard's table, and the data stream by its worked examples. Whatever the data and the mask, the patterns and both copies of
  format and version are intact in the finished symbol (`FinishedPatterns.FinishedPatternsIntact`).
* The streaming penalty with its seven-entry history is the direct definition over runs, the score stays within the range the source
  asserts, and automatic masking takes the lowest-numbered mask of least penalty.
* The search of the rule trie is sound for all tries and terminates. It agrees with a scan over all rules whenever no star is hidden
  by an earlier sibling for a character of the address; in particular for all rules without stars. For patterns that have at most
  one star or no separator marks, it agrees on every address and for every test if and only if every star of every pattern is safe
  (`TrieExact.AgreesExactly`): its earlier siblings are harmless, because the star can always be looked at in front of a separator,
  or evaded, because an earlier star can take up the run of characters that would hide it. With at most one star, this is that every
  star comes first among its siblings, harmless ones aside (`TrieExact.OneStarExactly`). `TrieHits.HiddenStar` shows a rule that is
  missed, `TrieExact.SecondStarEvades` one that is found although a star of it is behind a sibling that is not harmless.
* Every run of desktop files and association lists keeps the MIME index consistent, so deletion leaves nothing dangling. Registration
  of an application reaches all its declared types if each of them occurs up to the first one that was listed before or is declared
  twice, and only then if no other one is declared twice; so for different types if and only if none but the last was listed before.
  `MimeRegistration.SecondTypeSkipped` and `MimeRegistration.RepeatedTypeSkips` show types that are passed over.
* The gesture recogniser's answer is the first match in the first round that has one; a clean trace is recognised as the first
  gesture that accepts its directions, and a trace with one slip is recognised.
* Each shortcut belongs to exactly one action, that of the first definition to list it
  (`ShortcutLaws.FirstDefinitionDecides`).

Conventions: out-of-range values and exceptions are `Option` or `Result` values; `hide` statements in proofs only keep definitions
away from the solver. A pair `X` and `XIs`/`XMeans`/`XIntro` is a definition and the lemmas that unfold it.

## Model

| member | source | states |
|---|---|---|
| Galois.Multiply | 3rdparty/qrcodegen/qrcodegen.cpp:740-749 | the shift-and-reduce loop, whose intermediate value stays a byte, computes the field product of the specification |
| Galois.MulIsRemainder | 3rdparty/qrcodegen/qrcodegen.cpp:740-749 | the product is the carry-less product of the two bytes reduced modulo 0x11D: they differ by a multiple of the modulus |
| Galois.MulAddLeft | 3rdparty/qrcodegen/qrcodegen.cpp:740-749 | multiplication distributes over XOR in its left operand |
| Galois.MulAddRight | 3rdparty/qrcodegen/qrcodegen.cpp:740-749 | multiplication distributes over XOR in its right operand |
| Galois.MulCommutative | 3rdparty/qrcodegen/qrcodegen.cpp:740-749 | multiplication is commutative although its loop treats the operands differently |
| Galois.MulAssociative | 3rdparty/qrcodegen/qrcodegen.cpp:740-749 | multiplication is associative |
| Galois.Inverse | 3rdparty/qrcodegen/qrcodegen.cpp:740-749 | every nonzero byte has an inverse, so bytes form a field |
| Galois.NoZeroDivisors | 3rdparty/qrcodegen/qrcodegen.cpp:740-749 | a product is zero only if a factor is |
| Galois.PowInjective | 3rdparty/qrcodegen/qrcodegen.cpp:711-722 | the powers 2^0 to 2^254, the roots used by divisors, are all different |
| Polynomials.EvalTimes | 3rdparty/qrcodegen/qrcodegen.cpp:711-722 | the value of a product of polynomials is the product of their values |
| ReedSolomon.ComputeDivisor | 3rdparty/qrcodegen/qrcodegen.cpp:702-724 | refuses degrees outside 1 to 255; otherwise the in-place loop yields exactly the coefficients of the product of (x - 2^i), leading 1 dropped |
| ReedSolomon.GeneratorValue | 3rdparty/qrcodegen/qrcodegen.cpp:711-722 | the generator's value at any field element is the product of the differences from its roots |
| ReedSolomon.GeneratorRoot | 3rdparty/qrcodegen/qrcodegen.cpp:711-722 | the generator vanishes at 2^0 to 2^(n-1) |
| ReedSolomon.ComputeRemainder | 3rdparty/qrcodegen/qrcodegen.cpp:727-737 | the shift-and-XOR loop computes the specified remainder of any data by any nonempty divisor |
| ReedSolomon.DivisionIdentity | 3rdparty/qrcodegen/qrcodegen.cpp:727-737 | data followed by the remainder is the quotient times the monic divisor |
| ReedSolomon.RemainderUnique | 3rdparty/qrcodegen/qrcodegen.cpp:727-737 | a word that starts with the data is a multiple of the divisor if and only if it ends with the computed remainder |
| ReedSolomon.CodewordRoots | 3rdparty/qrcodegen/qrcodegen.cpp:510-520 | data followed by its correction bytes vanishes at 2^0 to 2^(n-1), for every data sequence and every n |
| CodeDistance.MinimumWeight | 3rdparty/qrcodegen/qrcodegen.cpp:702-737 | a nonzero word of at most 255 bytes with these n roots has more than n nonzero bytes |
| CodeDistance.CodewordDistance | 3rdparty/qrcodegen/qrcodegen.cpp:702-737 | blocks with different data differ, as codewords, in more than n bytes |
| CodeDistance.UniqueDecoding | 3rdparty/qrcodegen/qrcodegen.cpp:702-737 | a word with at most n/2 damaged bytes determines the data of its block |
| QrTables.LayoutsSound | 3rdparty/qrcodegen/qrcodegen.cpp:793-809 | for all versions and levels the table entries give nonempty blocks that, with their correction bytes, stay below 255 bytes |
| BlockLaws.CapacityIs | 3rdparty/qrcodegen/qrcodegen.cpp:695-699 | for every version and level the tables and the module formula give the number of data codewords that ISO/IEC 18004 tabulates |
| BlockLaws.CapacityOrdered | 3rdparty/qrcodegen/qrcodegen.cpp:695-699 | capacity grows with the version and falls with the strength of the level |
| CodewordBlocks.LayoutOfSound | 3rdparty/qrcodegen/qrcodegen.cpp:502-507 | the block layout of every version and level accounts for exactly the raw codewords and exactly the data codewords |
| CodewordBlocks.SplitIntoBlocks | 3rdparty/qrcodegen/qrcodegen.cpp:509-520 | splitting consumes all data once; each block is its data, a padding byte if short, and its correction bytes |
| CodewordBlocks.Interleave | 3rdparty/qrcodegen/qrcodegen.cpp:522-532 | the nested loops produce the blocks row by row without the padding bytes, exactly the raw number of bytes |
| CodewordBlocks.RowsAt | 3rdparty/qrcodegen/qrcodegen.cpp:522-532 | where each byte of each block is found in the interleaved sequence |
| CodewordBlocks.ReadPlacesDistinct | 3rdparty/qrcodegen/qrcodegen.cpp:522-532 | different bytes of blocks are read from different places of the interleaved sequence |
| BlockLaws.BlockSizes | 3rdparty/qrcodegen/qrcodegen.cpp:506-523 | short blocks come first, a long one has one byte more, and the blocks lie one after the other |
| BlockLaws.PlacesOrdered | 3rdparty/qrcodegen/qrcodegen.cpp:526-533 | the result has the bytes in the order of their number in the block, and among equal numbers of the block; there are as many places as bytes |
| CodewordBlocks.AddEccAndInterleave | 3rdparty/qrcodegen/qrcodegen.cpp:498-533 | refuses data of the wrong length; otherwise every block, read from the interleaved result, is the codeword of its share of the data |
| CodewordBlocks.ReadsBack | 3rdparty/qrcodegen/qrcodegen.cpp:498-533 | de-interleaving gives back all data, with or without long blocks, and no block is longer than the code allows |
| Bits.BitBuffer.AppendBits | 3rdparty/qrcodegen/qrcodegen.cpp:823-828 | appends the value's bits, most significant first, if and only if the length is 0 to 31 and the value fits it |
| Bits.BitsRoundTrip | 3rdparty/qrcodegen/qrcodegen.cpp:823-828 | a value that fits its width is read back from its bits |
| StreamLaws.BitAt | 3rdparty/qrcodegen/qrcodegen.cpp:823-828 | bits are written most significant first: bit k of len counts 2 to the power of len - 1 - k |
| Segments.MakeNumeric | 3rdparty/qrcodegen/qrcodegen.cpp:79-99 | accepts exactly the digit strings and encodes them three digits at a time |
| Segments.NumericBits | 3rdparty/qrcodegen/qrcodegen.cpp:88-97 | the length is 10 bits for three digits plus 0, 4 or 7 for the rest |
| Segments.NumericRoundTrip | 3rdparty/qrcodegen/qrcodegen.cpp:79-99 | the digits, leading zeros included, are read back from the bits |
| StreamLaws.LengthsAre | 3rdparty/qrcodegen/qrcodegen.cpp:79-122 | n digits take ten thirds of n bits and n characters eleven halves, both rounded up |
| StreamLaws.NumericExample | 3rdparty/qrcodegen/qrcodegen.cpp:259-317 | the data codewords of "01234567" in version 1 at level M are those of the example of ISO/IEC 18004 |
| Segments.MakeAlphanumeric | 3rdparty/qrcodegen/qrcodegen.cpp:102-122 | accepts exactly the strings over the 45-character set and encodes them two characters at a time |
| Segments.AlphanumericBits | 3rdparty/qrcodegen/qrcodegen.cpp:111-120 | the length is 11 bits for two characters plus 0 or 6 for the rest |
| Segments.AlphanumericRoundTrip | 3rdparty/qrcodegen/qrcodegen.cpp:102-122 | the text is read back from the bits |
| StreamLaws.CharsetValues | 3rdparty/qrcodegen/qrcodegen.cpp:230-230 | digits have their own value, letters follow from 10 on, nine other characters from 36 on, and no other character has one |
| StreamLaws.AlphanumericExample | 3rdparty/qrcodegen/qrcodegen.cpp:102-122 | the bits of "AC-42" are those of the example of ISO/IEC 18004 |
| Segments.MakeBytes | 3rdparty/qrcodegen/qrcodegen.cpp:69-76 | accepts up to INT_MAX bytes and encodes eight bits for each |
| Segments.BytesRoundTrip | 3rdparty/qrcodegen/qrcodegen.cpp:69-76 | the bytes are read back from the bits |
| StreamLaws.ByteBitsAt | 3rdparty/qrcodegen/qrcodegen.cpp:69-76 | every byte is written most significant bit first, at eight times its index |
| Segments.MakeEci | 3rdparty/qrcodegen/qrcodegen.cpp:143-158 | accepts assignments below a million and encodes them in one, two or three bytes |
| Segments.EciRoundTrip | 3rdparty/qrcodegen/qrcodegen.cpp:143-158 | the designator announces its own length, whatever follows it, and the assignment is read back |
| StreamLaws.EciBytes | 3rdparty/qrcodegen/qrcodegen.cpp:143-158 | a designator takes the least number of bytes that hold it with seven bits each |
| StreamLaws.ModeIndicators | 3rdparty/qrcodegen/qrcodegen.cpp:62-66 | the five mode indicators as the standard writes them |
| StreamLaws.CountWidths | 3rdparty/qrcodegen/qrcodegen.cpp:57-66 | the widths of the count field for versions 1 to 9, 10 to 26 and 27 to 40 |
| SymbolEncoder.GetTotalBits | 3rdparty/qrcodegen/qrcodegen.cpp:179-193 | the exact length of the segments' stream, or -1 if a count does not fit its field or the length exceeds INT_MAX |
| SymbolEncoder.FindVersion | 3rdparty/qrcodegen/qrcodegen.cpp:264-281 | the smallest version of the range with room for the segments, -1 if and only if none has room |
| SymbolEncoder.BoostLevel | 3rdparty/qrcodegen/qrcodegen.cpp:284-288 | a level no weaker than asked for, with room, such that no stronger level has room |
| SymbolEncoder.AppendPadding | 3rdparty/qrcodegen/qrcodegen.cpp:299-308 | terminator (cut short by the capacity), zero bits to a byte boundary and alternating bytes fill the capacity exactly |
| StreamLaws.PaddingLeast | 3rdparty/qrcodegen/qrcodegen.cpp:299-308 | the zero bits in front of the padding bytes are the least number that holds the terminator, or fills the symbol, and ends a byte |
| StreamLaws.PadWordsAre | 3rdparty/qrcodegen/qrcodegen.cpp:306-308 | the padding bytes are 0xEC and 0x11 in turn |
| SymbolEncoder.PackBytes | 3rdparty/qrcodegen/qrcodegen.cpp:310-313 | OR-ing bits into bytes gives the byte sequence whose bits, most significant first, are the bit string |
| SymbolEncoder.EncodeAt | 3rdparty/qrcodegen/qrcodegen.cpp:284-313 | for a version with room, codewords whose bits are header, payload and padding of the segments, at the level asked for or the strongest |
| SymbolEncoder.EncodeSegments | 3rdparty/qrcodegen/qrcodegen.cpp:259-317 | refuses bad arguments, gives up if and only if no version of the range has room, otherwise encodes in the smallest version that has |
| SymbolReader.MakeSegment | 3rdparty/qrcodegen/qrcodegen.cpp:69-158 | the factories succeed exactly on encodable items, with the item's segment |
| SymbolReader.ParseStream | 3rdparty/qrcodegen/qrcodegen.cpp:290-308 | the stream of any factory-made segments followed by a terminator, or by fewer than four bits, parses to exactly their items |
| SymbolReader.EncodingRoundTrip | 3rdparty/qrcodegen/qrcodegen.cpp:259-317 | the bits of an encoding's data codewords parse to exactly the items that were encoded |
| QrTables.RawModulesRange | 3rdparty/qrcodegen/qrcodegen.cpp:690-690 | the number of modules for data stays within the range that the source asserts |
| FunctionPatterns.AlignmentsApart | 3rdparty/qrcodegen/qrcodegen.cpp:668-674 | in every version neighbouring alignment patterns are at least 12 modules apart, the first and last position are fixed, and the patterns between stay clear of the finder patterns at both ends and of the version information |
| FunctionPatterns.MarksAreFunctions | 3rdparty/qrcodegen/qrcodegen.cpp:387-413 | drawing marks exactly the modules of timing, finder, alignment, format and version patterns |
| FunctionCount.AlignmentKinds | 3rdparty/qrcodegen/qrcodegen.cpp:398-408 | which modules the alignment patterns cover, the three corners excepted, by the kinds of their two coordinates |
| FunctionCount.PartsCover | 3rdparty/qrcodegen/qrcodegen.cpp:387-413 | the parts into which a row is divided count every function module once, where patterns overlap too, and no other module |
| FunctionCount.FreeModules | 3rdparty/qrcodegen/qrcodegen.cpp:680-692 | for every version, all modules less the function modules are exactly as many as the closed formula says |
| FunctionCount.FreeScanLength | 3rdparty/qrcodegen/qrcodegen.cpp:536-560 | the zigzag scan of every version finds exactly that many free modules |
| FunctionCount.RoomForCodewords | 3rdparty/qrcodegen/qrcodegen.cpp:559-559 | the scan of the drawn patterns has room for every codeword bit, as the source asserts after drawing |
| QrSymbol.QrCode.DrawTiming | 3rdparty/qrcodegen/qrcodegen.cpp:389-392 | the timing patterns are drawn and marked, nothing else changes |
| QrSymbol.QrCode.DrawFinderPattern | 3rdparty/qrcodegen/qrcodegen.cpp:465-474 | a finder pattern is drawn and marked as far as it lies inside the symbol, nothing else changes |
| QrSymbol.QrCode.DrawAlignmentPattern | 3rdparty/qrcodegen/qrcodegen.cpp:477-482 | an alignment pattern is drawn and marked, nothing else changes |
| QrSymbol.QrCode.GetAlignmentPatternPositions | 3rdparty/qrcodegen/qrcodegen.cpp:664-677 | the positions, put together from the end, in increasing order |
| QrSymbol.QrCode.DrawAlignmentPatterns | 3rdparty/qrcodegen/qrcodegen.cpp:400-408 | all alignment patterns but those on the finder corners are drawn and marked |
| QrSymbol.QrCode.DrawVersion | 3rdparty/qrcodegen/qrcodegen.cpp:443-462 | from version 7 on both copies of the version word are drawn and marked, before it nothing changes |
| QrSymbol.QrCode.DrawFunctionPatterns | 3rdparty/qrcodegen/qrcodegen.cpp:387-413 | a blank symbol becomes the one with the function patterns of its version, with their marks |
| PatternShapes.FinderProfile | 3rdparty/qrcodegen/qrcodegen.cpp:465-474 | along both centre lines a finder pattern shows 1:1:3:1:1 between light modules, and every other module is as the centre line at its larger distance |
| PatternShapes.AlignmentProfile | 3rdparty/qrcodegen/qrcodegen.cpp:477-482 | the same for alignment patterns with 1:1:1:1:1 |
| PatternShapes.TimingAlternates | 3rdparty/qrcodegen/qrcodegen.cpp:388-392 | between the finder patterns both timing lines alternate, and begin and end dark |
| PatternShapes.AlignStepLeast | 3rdparty/qrcodegen/qrcodegen.cpp:664-677 | the step between alignment patterns is the least even one that spans the symbol, but 26 for version 32 |
| PatternShapes.VersionBlocks | 3rdparty/qrcodegen/qrcodegen.cpp:454-461 | the version bits fill a block of six rows and three columns row by row, and its mirror image, and nothing else |
| IntactPatterns.AlignmentOnTiming | 3rdparty/qrcodegen/qrcodegen.cpp:388-409 | where an alignment pattern lies across a timing line, the two agree |
| IntactPatterns.PatternsIntact | 3rdparty/qrcodegen/qrcodegen.cpp:387-413 | no pattern is damaged by those drawn later: every module of the finder and alignment patterns, and of the timing lines outside the finder patterns, is as its own pattern has it |
| ZigzagScan.ScanExact | 3rdparty/qrcodegen/qrcodegen.cpp:541-558 | for every odd size of at least 7 the zigzag order visits every cell outside column 6 exactly once and none inside |
| ZigzagScan.ScanStarts | 3rdparty/qrcodegen/qrcodegen.cpp:541-549 | the scan starts at the lower right module |
| ZigzagScan.ScanOrder | 3rdparty/qrcodegen/qrcodegen.cpp:545-549 | in each row of a column pair the right module is followed by its left neighbour, and this by the right module of the next row, upward in the first pair of a symbol and then downward and upward in turn |
| ZigzagScan.ScanTurns | 3rdparty/qrcodegen/qrcodegen.cpp:542-549 | at the end of a pair the scan stays in its row and goes on with the right module of the next pair, passing over column 6, or ends |
| ZigzagScan.LoopColumnStep | 3rdparty/qrcodegen/qrcodegen.cpp:541-543 | the loop's right column, with its jump from 6 to 5, is the right column of the next pair of the order |
| QrSymbol.QrCode.SetFunctionModule | 3rdparty/qrcodegen/qrcodegen.cpp:485-490 | changes one module and marks one cell, and nothing else |
| QrSymbol.QrCode.DrawBit | 3rdparty/qrcodegen/qrcodegen.cpp:547-554 | one step of drawing: the next bit goes to a free cell, function cells and cells past the last bit stay |
| QrSymbol.QrCode.DrawCodewords | 3rdparty/qrcodegen/qrcodegen.cpp:536-560 | refuses any other number of codewords than the version's, leaving the grid alone; otherwise the grid becomes the one with the codeword bits on its free cells in zigzag order |
| QrGrid.PutBitsExact | 3rdparty/qrcodegen/qrcodegen.cpp:547-554 | bits put on different cells are all there afterwards, and all other cells are unchanged |
| QrGrid.DrawnExactly | 3rdparty/qrcodegen/qrcodegen.cpp:536-560 | with enough free cells, reading in scan order returns every bit, and function cells, column 6 and cells past the last bit are untouched |
| QrSymbol.QrCode.ApplyMask | 3rdparty/qrcodegen/qrcodegen.cpp:563-584 | exactly the cells that the mask selects and that are no function modules are inverted |
| QrGrid.MaskInvolution | 3rdparty/qrcodegen/qrcodegen.cpp:349-349 | applying a mask twice changes nothing |
| MaskPatterns.Chequerboard | 3rdparty/qrcodegen/qrcodegen.cpp:571-571 | mask 0 is a chequerboard that inverts the first module |
| MaskPatterns.EveryOtherRow | 3rdparty/qrcodegen/qrcodegen.cpp:572-572 | mask 1 inverts every other row, the first included |
| MaskPatterns.EveryThirdColumn | 3rdparty/qrcodegen/qrcodegen.cpp:573-573 | mask 2 inverts every third column, the first included |
| MaskPatterns.EveryThirdDiagonal | 3rdparty/qrcodegen/qrcodegen.cpp:574-574 | mask 3 inverts every third diagonal down to the left, the first included |
| MaskPatterns.ChequeredBlocks | 3rdparty/qrcodegen/qrcodegen.cpp:575-575 | mask 4 is a chequerboard of blocks three modules wide and two high |
| MaskPatterns.ProductMultiple | 3rdparty/qrcodegen/qrcodegen.cpp:576-576 | mask 5 inverts where the product of the coordinates is a multiple of 6 |
| MaskPatterns.ProductSmall | 3rdparty/qrcodegen/qrcodegen.cpp:577-577 | mask 6 inverts where the product leaves less than 3 modulo 6 |
| MaskPatterns.TurnedChequerboard | 3rdparty/qrcodegen/qrcodegen.cpp:578-578 | mask 7 is the chequerboard, turned round where both coordinates leave the same nonzero rest modulo 3 |
| MaskPatterns.MaskChanges | 3rdparty/qrcodegen/qrcodegen.cpp:581-581 | masking changes exactly the modules that the pattern inverts and that are not function modules |
| QrSymbol.ComputeFormatWord | 3rdparty/qrcodegen/qrcodegen.cpp:417-422 | the loop computes the format word of a level and a mask |
| CheckCodes.FormatWordsFar | 3rdparty/qrcodegen/qrcodegen.cpp:417-422 | unmasked, every format word is the carry-less product of 0x537 and a number below 32, and words of different levels or masks differ in at least 7 bits |
| CheckCodes.FormatWordsOfLevels | 3rdparty/qrcodegen/qrcodegen.cpp:417-422 | the words of the four levels for mask 0 are 0x77C4, 0x5412, 0x355F and 0x1689 |
| CheckCodes.FormatWordExample | 3rdparty/qrcodegen/qrcodegen.cpp:417-422 | the word of level M and mask 5 is 0x40CE, the example of ISO/IEC 18004 |
| CheckCodes.VersionWordsFar | 3rdparty/qrcodegen/qrcodegen.cpp:447-451 | every version word is the carry-less product of 0x1F25 and a number below 64, and words of different versions differ in at least 8 bits |
| CheckCodes.VersionWordExample | 3rdparty/qrcodegen/qrcodegen.cpp:447-451 | the word of version 7 is 0x07C94, the example of ISO/IEC 18004 |
| PatternShapes.WordOfBits | 3rdparty/qrcodegen/qrcodegen.cpp:780-782 | a word is made up of its bits, bit i with the weight 1 << i |
| QrSymbol.QrCode.DrawFormatBits | 3rdparty/qrcodegen/qrcodegen.cpp:416-440 | both copies of the format word and the dark module are drawn and marked, and nothing else changes |
| PatternShapes.FirstCopyPath | 3rdparty/qrcodegen/qrcodegen.cpp:425-432 | the first copy takes exactly the modules of row 8 and column 8 around the upper left finder pattern that are on no timing line, in the order of x - y |
| PatternShapes.SecondCopyPath | 3rdparty/qrcodegen/qrcodegen.cpp:434-439 | the second copy takes exactly the last eight modules of row 8 and the last seven of column 8, in the order of x - y; the module above these is the dark one |
| PatternShapes.CopiesShown | 3rdparty/qrcodegen/qrcodegen.cpp:425-439 | both copies show all bits; the second does not overwrite the first |
| QrGrid.TrialForgetsFormat | 3rdparty/qrcodegen/qrcodegen.cpp:342-350 | what a mask makes of a symbol does not depend on format bits drawn before |
| QrGrid.TrialUndone | 3rdparty/qrcodegen/qrcodegen.cpp:342-350 | taking the mask off a trial symbol leaves the unmasked grid with that trial's format bits |
| QrSymbol.QrCode.TryMask | 3rdparty/qrcodegen/qrcodegen.cpp:342-350 | a trial's score depends on the unmasked grid and the mask only, and only format bits are left of the trial |
| QrSymbol.QrCode.ChooseMask | 3rdparty/qrcodegen/qrcodegen.cpp:339-351 | the loop over the eight masks ends with the lowest-numbered mask of least penalty |
| QrSymbol.QrCode.FinishWithMask | 3rdparty/qrcodegen/qrcodegen.cpp:338-355 | the final grid is the unmasked grid with the asked-for or best mask on its free cells and that mask's format bits |
| QrSymbol.QrCode.Build | 3rdparty/qrcodegen/qrcodegen.cpp:320-359 | refuses mask numbers and data lengths out of range without changing the grid; otherwise protects, draws and masks the data |
| QrSymbol.QrCode.Create | 3rdparty/qrcodegen/qrcodegen.cpp:320-359 | refuses versions, masks and data lengths out of range, each with its error; otherwise makes a finished symbol of the data |
| Penalty.RunsExpand | 3rdparty/qrcodegen/qrcodegen.cpp:590-612 | the run lengths of the specification, coloured alternately, make up the line, so they are its maximal runs |
| Penalty.FinderPenaltyCountPatterns | 3rdparty/qrcodegen/qrcodegen.cpp:752-758 | counts the sides on which the seven remembered runs look like a finder pattern |
| Penalty.FinderPenaltyAddHistory | 3rdparty/qrcodegen/qrcodegen.cpp:772-777 | shifts the history by one run; the first run is lengthened by the light border |
| Penalty.FinderPenaltyTerminateAndCount | 3rdparty/qrcodegen/qrcodegen.cpp:761-769 | ends the last run, adds the light border and counts in the last window |
| Penalty.ScoreLine | 3rdparty/qrcodegen/qrcodegen.cpp:591-611 | one pass with a run counter and seven remembered runs scores any row or column as the direct definition over its runs and over the bordered line |
| Penalty.GetPenaltyScore | 3rdparty/qrcodegen/qrcodegen.cpp:587-661 | rows, columns, blocks and balance add up to the specified penalty of the grid |
| Penalty.GridBalance | 3rdparty/qrcodegen/qrcodegen.cpp:646-658 | for odd sizes the balance term is the least k with (45-5k)% <= dark <= (55+5k)%, and lies between 0 and 9 |
| PenaltyLaws.RunsOfExpand | 3rdparty/qrcodegen/qrcodegen.cpp:595-609 | runs are maximal: any positive lengths are the runs of the modules they make up |
| PenaltyLaws.RunPenaltyStep | 3rdparty/qrcodegen/qrcodegen.cpp:596-608 | module by module, the fifth of equal modules costs 3 and each further one 1 |
| PenaltyLaws.SidesSeen | 3rdparty/qrcodegen/qrcodegen.cpp:752-758 | a side is counted exactly if the modules of the seven runs are n dark, n light, 3n dark, n light and n dark between at least 4n light ones on this side and n on the other |
| PenaltyLaws.LoneFinder | 3rdparty/qrcodegen/qrcodegen.cpp:752-777 | a line with one such profile and nothing else costs 80 for it, wherever it lies, because the light border counts |
| PenaltyLaws.BlocksCounted | 3rdparty/qrcodegen/qrcodegen.cpp:635-644 | the number of blocks is that of the modules with the colour of the three to the right and below |
| PenaltyLaws.DarkCounted | 3rdparty/qrcodegen/qrcodegen.cpp:647-653 | the dark modules are counted once each |
| PenaltyLaws.DarkGridPenalty | 3rdparty/qrcodegen/qrcodegen.cpp:587-661 | a dark symbol of n by n modules costs 2n(n-2) for runs, 3(n-1)(n-1) for blocks and 90 for balance |
| PenaltyBound.FinderBound | 3rdparty/qrcodegen/qrcodegen.cpp:752-758 | windows two runs apart cannot both look like a finder pattern, so there are at most half as many sides as runs |
| PenaltyBound.PenaltyInRange | 3rdparty/qrcodegen/qrcodegen.cpp:659-659 | the score of every symbol lies in the range that the source asserts |
| SymbolDecoder.FormatReadBack | 3rdparty/qrcodegen/qrcodegen.cpp:416-433 | level and mask are read back from the format bits of a finished symbol |
| SymbolDecoder.CodewordsRoundTrip | 3rdparty/qrcodegen/qrcodegen.cpp:320-359 | unmasking and reading a finished symbol in scan order gives the codewords that were drawn, whichever mask was chosen |
| SymbolDecoder.SymbolRoundTrip | 3rdparty/qrcodegen/qrcodegen.cpp:259-359 | a finished symbol of encoded segments is read back as the items the segments were made of, for any function patterns with room that include the format bits |
| SymbolDecoder.FinishedSymbolRoundTrip | 3rdparty/qrcodegen/qrcodegen.cpp:259-359 | the same for the function patterns of every version: the items are read back from the modules alone |
| SymbolDecoder.EncodeSymbol | 3rdparty/qrcodegen/qrcodegen.cpp:259-317 | encoding fails as `EncodeSegments` says; otherwise the symbol has the version and level it says, is the finished symbol of the data codewords it says with the asked or the best mask, and is read back as any items that the segments stand for |
| FinishedPatterns.FunctionsKept | 3rdparty/qrcodegen/qrcodegen.cpp:320-359 | codewords and masks leave the function modules as drawn, the format bits aside |
| FinishedPatterns.FinishedPatternsIntact | 3rdparty/qrcodegen/qrcodegen.cpp:320-359 | in every finished symbol, whatever the data and the mask, the finder, timing and alignment patterns are intact |
| FinishedPatterns.FinishedFormat | 3rdparty/qrcodegen/qrcodegen.cpp:355-357 | every finished symbol shows the format word of its level and mask in both copies, and the dark module |
| FinishedPatterns.FinishedVersion | 3rdparty/qrcodegen/qrcodegen.cpp:443-462 | from version 7 on every finished symbol shows the version word in both blocks |
| SymbolDecoder.DamageIsCorrectable | 3rdparty/qrcodegen/qrcodegen.cpp:498-533 | if at most half as many bytes as there are correction bytes are damaged in each block, only one data sequence fits the codewords read |
| TrieShape.WithChildSound | src/core/AdblockContentFiltersProfile.cpp:279-308 | making a child, first for a separator and last otherwise, keeps siblings distinct, every node and every rule |
| TrieShape.InsertSound | src/core/AdblockContentFiltersProfile.cpp:272-311 | insertion keeps the trie well formed and every earlier (path, rule) pair, and adds exactly one pair |
| TrieHits.BuildSound | src/core/AdblockContentFiltersProfile.cpp:1057-1062 | the trie of a rule list holds exactly the listed rules, each at its pattern, with separators first |
| RuleTrie.Profile.AddChild | src/core/AdblockContentFiltersProfile.cpp:293-308 | the heap trie gains one linked node for the new path and no other node changes |
| RuleTrie.Profile.Insert | src/core/AdblockContentFiltersProfile.cpp:272-311 | the heap loop does to the linked nodes what insertion does to the trie as a value |
| RuleTrie.Profile.InsertAll | src/core/AdblockContentFiltersProfile.cpp:1057-1062 | adding the rules of a list one after the other gives the trie of the list |
| RuleTrie.Profile.EvaluateNodeRules | src/core/AdblockContentFiltersProfile.cpp:757-783 | an exception if and only if an exception rule of the node applies, otherwise blocked if and only if a rule applies |
| RuleTrie.Profile.CheckWildcard | src/core/AdblockContentFiltersProfile.cpp:364-381 | the loop over the lengths a star takes up decides over all rules hit below it |
| RuleTrie.Profile.CheckChildren | src/core/AdblockContentFiltersProfile.cpp:360-405 | the loop over the children, which a literal child ends, decides over the rules hit below the children before the break |
| RuleTrie.Profile.CheckUrlSubstring | src/core/AdblockContentFiltersProfile.cpp:339-446 | terminates, and decides over exactly the rules hit by the search from a node on; the reported rule is one of them |
| RuleTrie.Profile.CheckEnd | src/core/AdblockContentFiltersProfile.cpp:415-446 | testing the last node again for each separator child changes nothing |
| RuleTrie.Profile.CheckUrl | src/core/AdblockContentFiltersProfile.cpp:738-755 | decides over the rules hit from any character of the address on, exceptions first |
| TrieSteps.HitsStep | src/core/AdblockContentFiltersProfile.cpp:344-413 | the rules hit from a node on are the node's, those below the children that the loop reaches, and those below the next character |
| TrieSteps.DepthBound | src/core/AdblockContentFiltersProfile.cpp:370-370 | paths are shorter than there are nodes, so descending to children ends |
| TrieSearch.ExploredMatches | src/core/AdblockContentFiltersProfile.cpp:339-446 | on every trie the search goes only where a pattern matches, with a star as any run and a separator mark as a zero-width test or itself |
| TrieSearch.MatchIsPrefix | src/core/AdblockContentFiltersProfile.cpp:412-412 | the text handed to a rule's test is a contiguous piece of the address |
| TrieSearch.MatchContinues | src/core/AdblockContentFiltersProfile.cpp:364-395 | a pattern that matches does so in a way in which no star after a separator mark is looked at in front of a character that is no separator |
| TrieSearch.MatchExplored | src/core/AdblockContentFiltersProfile.cpp:360-405 | if no star is hidden by an earlier sibling for a character of the text, the search goes everywhere where a pattern matches |
| TrieSearch.StarMissed | src/core/AdblockContentFiltersProfile.cpp:360-405 | a star behind a sibling that is not harmless is missed on the text of its path in front of that sibling's character, which its pattern matches |
| TrieSearch.MissesNothingExactly | src/core/AdblockContentFiltersProfile.cpp:360-405 | in every trie that insertion builds, the search misses no match of any node's path, with or without a rule, if and only if every star comes first among its siblings, harmless ones aside |
| TrieHits.LiteralMatch | src/core/AdblockContentFiltersProfile.cpp:397-404 | a pattern without stars and separator marks matches exactly itself |
| TrieHits.SearchIsSound | src/core/AdblockContentFiltersProfile.cpp:738-755 | for any rule list, the search hits only rules that a scan over all rules and positions finds |
| TrieHits.SearchIsComplete | src/core/AdblockContentFiltersProfile.cpp:738-755 | if no star is hidden on an address, the search hits exactly the rules that the scan finds |
| TrieHits.PlainRulesComplete | src/core/AdblockContentFiltersProfile.cpp:738-755 | for rules without stars the search hits exactly the rules that the scan finds, on every address |
| TrieHits.AgreesWithScan | src/core/AdblockContentFiltersProfile.cpp:738-755 | the answer is an exception, blocked or nothing if and only if the scan finds an exception, only other rules, or none |
| TrieMissed.FirstStarMissed | src/core/AdblockContentFiltersProfile.cpp:360-405 | in any rule list, a rule whose first star is behind a sibling that is not harmless is found by the scan and missed by the search on an address given by the pattern and the sibling's character |
| TrieMissed.LastStarMissed | src/core/AdblockContentFiltersProfile.cpp:360-405 | in any rule list, a rule whose pattern ends in such a star is missed on some address |
| TrieRuns.MissedAtNext | src/core/AdblockContentFiltersProfile.cpp:360-405 | without separator marks, a rule is missed on its own literals if a star is behind a sibling for the next of them, or for any character if there is none |
| TrieRuns.MissedWithExtra | src/core/AdblockContentFiltersProfile.cpp:360-405 | without separator marks, a rule is missed on its literals with the sibling's character at the star, unless an earlier star and a run of that character come before |
| TrieRuns.SafeExplored | src/core/AdblockContentFiltersProfile.cpp:360-405 | the search explores every match of a safe pattern without separator marks, by letting each star take up as much as it can |
| TrieExact.AgreesExactly | src/core/AdblockContentFiltersProfile.cpp:738-755 | for patterns that have at most one star or no separator marks, and lines that determine their patterns, the search hits on every address and for every test exactly the rules that the scan finds if and only if every pattern is safe in the trie |
| TrieExact.OneStarExactly | src/core/AdblockContentFiltersProfile.cpp:738-755 | for patterns with at most one star this holds if and only if every star comes first among its siblings, harmless ones aside |
| TrieExact.SecondStarEvades | src/core/AdblockContentFiltersProfile.cpp:364-405 | with the patterns "a*bb" and "a*b*d" the search agrees with the scan although the second star of "a*b*d" is behind a sibling that is not harmless |
| TrieExact.MarkNeedsCharacter | src/core/AdblockContentFiltersProfile.cpp:383-395 | a pattern that ends in a separator mark matches exactly where the pattern before it does and the address goes on with a separator, which the match includes only as the mark itself |
| TrieExact.MarkNotAtEnd | src/core/AdblockContentFiltersProfile.cpp:428-446 | the rule "ab^" is not found on the address "ab" |
| PatternLaws.LiteralFound | src/core/AdblockContentFiltersProfile.cpp:738-755 | a rule with a literal pattern is found exactly on the addresses that contain the pattern, if its test accepts the pattern |
| PatternLaws.MarkFound | src/core/AdblockContentFiltersProfile.cpp:383-395 | a rule with a separator mark behind a literal pattern is found exactly on the addresses that contain the pattern in front of a character that is no letter or digit and none of "_", "-", "." and "%"; the same for the scan |
| PatternLaws.MarkBefore | src/core/AdblockContentFiltersProfile.cpp:383-383 | on the pattern and one more character, this character alone decides |
| PatternLaws.StarFound | src/core/AdblockContentFiltersProfile.cpp:364-381 | a rule with a star between two literal parts is found exactly on the addresses that contain the first part and behind it the second |
| TrieHits.HiddenStar | src/core/AdblockContentFiltersProfile.cpp:397-404 | with the patterns "ac" and "a*d" inserted in this order the second rule is missed on "acd" |
| MimeIndex.DesktopEntry.EraseType | 3rdparty/libmimeapps/Index.cpp:252-281 | erasing while iterating removes every occurrence of the type and keeps the others in order |
| MimeIndex.Index.EraseFromList | 3rdparty/libmimeapps/Index.cpp:239-249 | erasing while iterating removes every entry with the identifier and keeps the others in order |
| MimeIndex.Index.RemoveFromType | 3rdparty/libmimeapps/Index.cpp:235-283 | takes the application off the type's list and the type off the application's, and changes nothing else |
| MimeIndex.Index.AddToType | 3rdparty/libmimeapps/Index.cpp:216-225 | puts the application first in the type's list and the type last in the application's |
| MimeIndex.Index.RemoveApplication | 3rdparty/libmimeapps/Index.cpp:227-233 | takes the application off every list, in whatever order the lists are visited |
| MimeIndex.Index.AddApplication | 3rdparty/libmimeapps/Index.cpp:204-214 | the loop over a list that its body grows and shrinks terminates and registers what the specification registers |
| MimeIndex.Index.ProcessDesktopFile | 3rdparty/libmimeapps/Index.cpp:186-202 | a hidden file removes its application, a displayed one replaces it, another changes nothing |
| MimeIndex.Index.ProcessMimeApps | 3rdparty/libmimeapps/Index.cpp:153-184 | added associations of known applications, each list from its end, then removed ones |
| MimeIndex.Index.RemoveUnused | 3rdparty/libmimeapps/Index.cpp:285-302 | deletes exactly the entries without types; in a consistent index every listed entry stays registered and undeleted |
| MimeIndex.Index.AppsForMime | 3rdparty/libmimeapps/Index.cpp:64-78 | returns the applications listed for a type in order, with their types; none of their entries has been deleted |
| MimeIndex.Index.CreateBase | 3rdparty/libmimeapps/Index.cpp:112-120 | any sequence of files, then deletion, gives the index of the run |
| MimeState.AddToTypeShrinks | 3rdparty/libmimeapps/Index.cpp:210-213 | the termination measure: a step lists a type that had no list, or keeps those types and does not lengthen the list |
| MimeState.RemoveFromTypeConsistent | 3rdparty/libmimeapps/Index.cpp:235-283 | removal keeps every listed application with the type it is listed for, and listed once |
| MimeState.AddToTypeConsistent | 3rdparty/libmimeapps/Index.cpp:216-225 | addition keeps the index consistent |
| MimeState.RemoveApplicationConsistent | 3rdparty/libmimeapps/Index.cpp:227-233 | afterwards the application is in no list |
| MimeRegistration.AddApplicationSound | 3rdparty/libmimeapps/Index.cpp:204-214 | keeps the index consistent and other applications and their order as they are; the new one is listed first, and only for declared types |
| MimeRegistration.ReachesCovered | 3rdparty/libmimeapps/Index.cpp:210-213 | the loop reaches all declared types if each of them occurs up to the first one that has a list already or is declared twice |
| MimeRegistration.SkipsNext | 3rdparty/libmimeapps/Index.cpp:210-213 | after that one the loop passes over the next different type, which is not reached if it is declared nowhere else |
| MimeRegistration.RegistersAllExactly | 3rdparty/libmimeapps/Index.cpp:210-213 | if no other type is declared twice, the loop reaches all declared types if and only if they all occur up to the first one that has a list already or is declared twice |
| MimeRegistration.AddApplicationExactly | 3rdparty/libmimeapps/Index.cpp:204-214 | the same for adding or replacing an application in any consistent index; with different declared types, if and only if none but the last was listed before |
| MimeRegistration.SecondTypeSkipped | 3rdparty/libmimeapps/Index.cpp:210-213 | after an application for type "a", one that declares "a" and "b" is not listed for "b" |
| MimeRegistration.RepeatedTypeSkips | 3rdparty/libmimeapps/Index.cpp:210-213 | in an empty index, an application that declares "a", "a" and "b" is not listed for "b" |
| MimeRegistration.RepeatedTypeReached | 3rdparty/libmimeapps/Index.cpp:210-213 | after an application for type "a", one that declares "a", "b" and "b" is listed for both |
| MimeRuns.RunConsistent | 3rdparty/libmimeapps/Index.cpp:112-120 | every run of desktop files and association lists keeps the index consistent |
| MimeRuns.NothingDangles | 3rdparty/libmimeapps/Index.cpp:285-302 | after deletion every listed application is known and has the type, lists are as before, and exactly the applications with a type are known |
| MimeRuns.AddedComeFirst | 3rdparty/libmimeapps/Index.cpp:160-171 | the list becomes exactly the named known applications, each once and in the order in which they are named, and then exactly the other listed ones in their order |
| MimeRuns.RemovedAreGone | 3rdparty/libmimeapps/Index.cpp:175-183 | exactly the listed applications that are not named stay on the list, in their order |
| MimeSteps.MimeAppsExactly | 3rdparty/libmimeapps/Index.cpp:153-184 | after an association file an application is listed for a type if and only if no removed association names it there and it was listed before, or is known and an added association names it; types that the file does not name keep their lists |
| MimeSteps.DesktopFileExactly | 3rdparty/libmimeapps/Index.cpp:186-202 | a hidden desktop file takes its application off every list, one that is not displayed changes nothing, and any other puts it first where it is listed at all, for declared types only; the other applications keep their order |
| GestureMoves.ComputeDirections | 3rdparty/mousegestures/MouseGestures.cpp:226-277 | the moves between successive positions, limited to the dominating axis, ties vertical |
| GestureLaws.LimitKeepsLonger | 3rdparty/mousegestures/MouseGestures.cpp:243-269 | a displacement keeps its longer part and drops the other; of two equal parts it keeps the vertical one |
| GestureMoves.ComputeSimplified | 3rdparty/mousegestures/MouseGestures.cpp:285-332 | the loop computes the specified joining of moves |
| GestureMoves.ComputeWithoutShortest | 3rdparty/mousegestures/MouseGestures.cpp:340-374 | removes exactly the first of the shortest moves |
| GestureMoves.CalculateLength | 3rdparty/mousegestures/MouseGestures.cpp:380-405 | the total length of the moves |
| GestureMoves.Shortest | 3rdparty/mousegestures/MouseGestures.cpp:340-361 | an index whose move is no longer than any other and shorter than every one before it |
| GestureLaws.SimplifyLaws | 3rdparty/mousegestures/MouseGestures.cpp:285-332 | joining conserves length and displacement of axis-parallel moves and leaves no two neighbours to join |
| GestureLaws.SimplifyFixed | 3rdparty/mousegestures/MouseGestures.cpp:285-332 | a list without zero moves that cannot be joined further is left as it is |
| GestureLaws.RemovalLoses | 3rdparty/mousegestures/MouseGestures.cpp:340-374 | removal loses exactly the length of the removed move |
| GestureLaws.ShortestByLength | 3rdparty/mousegestures/MouseGestures.cpp:340-361 | the move chosen by squared lengths is the first of the shortest by length, which for axis-parallel moves is the sum of both parts |
| MouseGestures.RoundShrinks | 3rdparty/mousegestures/MouseGestures.cpp:214-214 | every round has fewer moves than the one before and no more of the length |
| MouseGestures.Recognizer.AddPosition | 3rdparty/mousegestures/MouseGestures.cpp:101-117 | records a position if and only if it is the first or far enough from the last; recordings stay spaced |
| MouseGestures.ApartOnAxis | 3rdparty/mousegestures/MouseGestures.cpp:110-116 | along an axis a position is recorded exactly from the minimum movement on |
| MouseGestures.ApartAcross | 3rdparty/mousegestures/MouseGestures.cpp:110-116 | a displacement of 3k by 4k counts as one of 5k |
| MouseGestures.Recognizer.EndGesture | 3rdparty/mousegestures/MouseGestures.cpp:126-138 | recognises recordings of more than one position, and forgets the recording |
| MouseGestures.Recognizer.FindGesture | 3rdparty/mousegestures/MouseGestures.cpp:147-212 | the first gesture that has, for each move, an action accepting it; -1 if there is none |
| GestureTraces.AcceptedExactly | 3rdparty/mousegestures/MouseGestures.cpp:153-200 | an action accepts an axis-parallel move if and only if the move goes in one of the action's directions; no move goes in two |
| GestureTraces.MatchedExactly | 3rdparty/mousegestures/MouseGestures.cpp:149-206 | moves in given directions are matched by exactly the gestures that accept these directions one by one |
| MouseGestures.Recognizer.RecognizeGesture | 3rdparty/mousegestures/MouseGestures.cpp:140-218 | terminates; the lowest gesture matching the first round that any gesture matches, among the rounds that keep more than the required part of the length; -1 if and only if no such round has a match |
| MouseGestures.SpacedMoves | 3rdparty/mousegestures/MouseGestures.cpp:109-116 | with a minimum movement no move of a recording is zero |
| GestureTraces.TraceRecognized | 3rdparty/mousegestures/MouseGestures.cpp:126-332 | a trace of one or more dominated moves for each of some directions without equal neighbours is recognised as the first gesture that accepts the directions; if there is none, then at most as a gesture of fewer moves |
| GestureTraces.OneDirection | 3rdparty/mousegestures/MouseGestures.cpp:243-269 | every displacement but the zero one is dominated by exactly one direction |
| GestureTraces.NothingForAll | 3rdparty/mousegestures/MouseGestures.cpp:143-145 | the part kept must be strictly more than the required part: with a threshold of 1 or more nothing is recognised |
| GestureTraces.SlipForgiven | 3rdparty/mousegestures/MouseGestures.cpp:140-218 | a shortest move between two moves of one direction is removed and the two joined, so the intended gesture or an earlier match is recognised |
| GestureTraces.RecognizedUnique | 3rdparty/mousegestures/MouseGestures.cpp:140-218 | recording and gestures determine the answer |
| Shortcuts.ActionsManager.GetActionShortcuts | src/core/ActionsManager.cpp:673-696 | the plain entry of an action, or the newest entry with the given parameters |
| Shortcuts.ActionsManager.LoadDefinition | src/core/ActionsManager.cpp:587-635 | adds to an action's shortcuts exactly those of the definition that nothing has claimed yet, and changes no other lookup |
| Shortcuts.ActionsManager.LoadProfiles | src/core/ActionsManager.cpp:569-641 | afterwards every lookup returns what its action claimed first, in the order of the claims |
| Shortcuts.FirstClaimWins | src/core/ActionsManager.cpp:614-623 | a shortcut is resolved to an action if and only if the first claim for it is that action's, and then once |
| Shortcuts.OneOwner | src/core/ActionsManager.cpp:569-641 | every listed shortcut is looked up under exactly one action and parameters, those of the first definition to list it; none is lost or duplicated |
| ShortcutLaws.FirstDefinitionDecides | src/core/ActionsManager.cpp:569-641 | a shortcut belongs to the action of the first definition that lists it, in the order of the profiles, their groups and the definitions of a group, and to no other |
| Shortcuts.StoreExtra | src/core/ActionsManager.cpp:633-633 | an older entry left behind by a repeated insert is never looked up |

## Left out

QR symbols:

- The two constant tables are kept as `match` expressions by version; text and binary entry points, `makeSegments`' choice of a mode, Kanji segments made by hand, and the getters are not modelled.
- Exception texts. Both overlong and oversized data end in `TooLong`.
- The limit with which the mask search starts is taken to be the smallest that the language allows; the width of other machine integers is not modelled except where a contract names it.

Content blocking:

- The syntax of rule lines (comments, options, anchors, stripping of outer stars) and cosmetic rules; the model starts from stripped patterns and definitions.
- checkRuleMatch is a parameter: a test of a rule and the matched text for the request at hand. Files, downloads and profiles are not modelled.
- AgreesExactly: says nothing of patterns that have both several stars and separator marks; for these, that all stars of the trie are harmless is sufficient (`TrieHits.SearchIsComplete`), and that the first star, and a star at the end, of every pattern are harmless is necessary (`TrieMissed.FirstStarMissed`, `TrieMissed.LastStarMissed`).
- A separator mark at the end of an address: the loop after the search tests the rules of the last node again instead of those of its separator child, so such rules are not found there; the scan of the model follows the code in this (`RuleTrie.Profile.CheckEnd`, `TrieExact.MarkNeedsCharacter`).
- Which characters are letters and digits is left open: the proofs hold for any classification that takes the star and the separator mark for neither.

MIME index:

- Directory scanning, environment variables, files, locales and command lines; the model is fed the desktop files and association lists in order. A desktop file's entry holds its identifier, flags and types only.
- RegistersAllExactly: for lists that repeat other types than the one at which new types stop, the condition is proved sufficient only; it is not necessary (`MimeRegistration.RepeatedTypeReached`), because a type that is passed over may be met again, which only the run of the loop tells.
- AddApplicationExactly: as for RegistersAllExactly.
- Entries that the source leaks (replaced or hidden ones) stay undeleted in the model as well.

Mouse gestures:

- Coordinates are unbounded integers and the match threshold is a real number; the copy constructor is not modelled.

Keyboard shortcuts:

- Key sequences and parameters are strings and string maps; a profile's definitions come in the order in which its hash is traversed.
- The list of shortcut definitions for the settings dialog, which can show older entries, and the loading of profiles.
