# Verified models of four components

This project models the algorithmic cores of four components in Dafny 4.11 and proves what they are
for. `dafny verify dfyconfig.toml` checks everything.

**The QR encoder** (`C/qrencode-3.4.4`). `GF256`, `Polynomial`, `ReedSolomon` and `RsCoder` are the
field, polynomials over it, the code and `rscode.c`. `QrSpec` and `QrBits` are the tables and bit
streams. `QrSegments` defines the bits of entries and a reader for them. `QrInput` is the input list
with estimates, the version search, padding and packing; `QrVersion` is that search in closed form and
says exactly when it succeeds, `QrCapacity` where it fails although it need not. `QrStruct` is
structured append, `QrSplit` the string splitter, `QrRaw` the blocks and their interleaving, `QrFrame`
the zig-zag placement, `QrPatterns` and `QrNewFrame` the function patterns and the empty frame,
`QrMask` masking and scoring, `QrCodes` the BCH codes of format and version information.
`QrSeries` says that symbols of a series are full, `QrSamples` and `QrPicture` pin bits, masks and
patterns to what the standard writes out. `QrEncode` and `QrSymbol` join them into `QRcode_encodeMask`: a receiver
that sees only the colours of the finished symbol gets the entries back.

**The FAT checker and maker** (`C/dosfstools-2.11`). `FatChains` and `FatReclaim` are orphan recovery,
`CheckFile` the repair of one file's chain, `DiskIo` the list of pending writes, `Geometry` the layout
that `mkdosfs` computes and `dosfsck` must derive again.

**cJSON** (`C/cjson`). `Json`, `JsonParse`, `JsonRoundTrip`, `JsonMinify` and `JsonCode` are the
printer, the parser and the minifier. `JsonGrammar` says which texts are accepted, `JsonUnicode` decodes
what escapes become, `JsonNumber` gives numbers their rational values, `JsonMinified` compares texts
before and after minifying.

**CRC-32** (`C/erase_nand/crc32.c`, `C_TEST/test_burn_img.c`). `Crc32`.

Objects that the source updates in place are classes, and its loops are loops; each is proved against
a function or predicate whose properties are lemmas. `Sets` and `Arithmetic` hold facts about finite
sets and about products and quotients. Memory is assumed not to run out.

## Where the code does not do what one would expect

- Kanji codes with a trailing byte below 0x40 pass the check and come back as other codes
  (`QrSegments.TrailingByteLost`; exactly those, `QrSegments.RoundTripExact`).
- The version search gives up on data that the largest symbol holds: 7089 digits
  (`QrCapacity.DigitsRefused`), or more than 2938 bytes (`QrCapacity.LongestAccepted`). For which lists
  of entries, `QrVersion.AcceptedExactly` and `QrVersion.BestExactly` say.
- A version that suffices can be raised (`QrCapacity.FullSymbolRaised`), against the comment on
  `QRinput_convertData`; exactly when, `QrVersion.VersionKept`.
- The structured split refuses 140 Kanji codes that fit one symbol (`QrStruct.FittingRefused`), and it
  cuts a header that an input already holds in two (`QrStruct.HeaderIsTorn`); which lists of entries it
  can cut into symbols, `QrStruct.SplitExactly` says.
- The string splitter charges the header of a third segment one bit too much and misses a stop that pays
  (`QrSplit.StopMissed`; exactly when, `QrSplit.StopInAnCharged`).
- Minifying can run two numbers together (`JsonMinified.TextRunsTogether`), but only in a text that the
  parser does not take as a whole (`JsonMinified.MinifyKeepsValue`). The parser accepts a string literal
  whose closing quote is missing (`JsonGrammar.AcceptsExactly`) and drops some escapes
  (`JsonUnicode.DroppedEscape`).
- A chain of 2^32 bytes or more is recovered as a file of the wrong size (`FatReclaim.ReclaimLongChain`;
  exactly those, `FatReclaim.SizesAddUp`).
- The checker of one file gives up on a chain that is too long and ends in a bad cluster
  (`CheckFile.BadEndGivesUp`; exactly those, `CheckFile.Checker.CheckFile`).
- The checker accepts a boot sector with a FAT of no sectors (`Geometry.NoFatAccepted`), because the
  limit for clusters wraps around below zero; an accepted boot sector has a FAT entry for every cluster
  exactly as `Geometry.EveryClusterHasEntry` says. A FAT of 4 GiB or more is taken for a shorter one
  (`Geometry.LongFatRefused`).
- A 16-bit FAT that is asked for with fewer than 4085 clusters is read as a 12-bit one
  (`Geometry.FloppyMisread`; exactly those, `Geometry.CheckerAgrees`); the maker warns about it.

## Model

| member | source | states |
|---|---|---|
| RsCoder.Modnn | C/qrencode-3.4.4/rscode.c:67-73 | The folding loop ends and gives the remainder modulo 255. |
| RsCoder.FillTables | C/qrencode-3.4.4/rscode.c:150-161 | In place, the two tables become the powers of x and their logarithms, zero having the reserved index; the register comes back to 1. |
| GF256.EighthPower | C/qrencode-3.4.4/qrencode.c:82 | The field is that of 0x11d: x^8 = x^4 + x^3 + x^2 + 1. |
| GF256.AlphaIsOne | C/qrencode-3.4.4/rscode.c:154-169 | x^n = 1 exactly for the multiples n of 255. This is more than the test `sr != 1` shows, and it is what makes the log table total. |
| GF256.AlphaInjective | C/qrencode-3.4.4/rscode.c:154-161 | Two powers of x below 255 are equal only if their exponents are: no slot of the log table is written twice. |
| GF256.LogExists | C/qrencode-3.4.4/rscode.c:154-161 | Every nonzero byte is a power of x below 255, so every slot of the log table is written. |
| GF256.MulPlus | C/qrencode-3.4.4/rscode.c:196-203 | The product that addition of logarithms gives distributes over exclusive-or, which makes the bytes a field. |
| GF256.MulAssoc | C/qrencode-3.4.4/rscode.c:196-203 | The product that addition of logarithms gives is associative. |
| GF256.NoZeroDivisors | C/qrencode-3.4.4/rscode.c:196-203 | A product is zero only if a factor is. |
| RsCoder.BuildGenerator | C/qrencode-3.4.4/rscode.c:190-204 | The loops that multiply in place leave exactly the product of (x + alpha^(fcr+i)), for every number of roots below 255. |
| ReedSolomon.GeneratorRoots | C/qrencode-3.4.4/rscode.c:190-204 | The generator polynomial vanishes at each of its nroots roots. |
| ReedSolomon.GeneratorMonic | C/qrencode-3.4.4/rscode.c:190-204 | The leading coefficient of the generator is 1 and its degree is nroots. |
| ReedSolomon.NeighbourCoefficients | C/qrencode-3.4.4/rscode.c:190-206 | The q-binomial law that ties each coefficient of the generator to its neighbour. |
| ReedSolomon.GeneratorCoefficientsNonzero | C/qrencode-3.4.4/rscode.c:190-206 | For up to 254 roots no coefficient of the generator is zero, so no entry of genpoly in index form is the reserved A0. |
| RsCoder.InitRsChar | C/qrencode-3.4.4/rscode.c:99-210 | For symbol size 8 and prim 1: null exactly for parameters out of range, otherwise a coder with the log tables and the generator in index form. |
| RsCoder.Rs.TimesGenerator | C/qrencode-3.4.4/rscode.c:317-323 | The unguarded sum of index forms, folded, is the field product with the generator coefficient. |
| RsCoder.Rs.AddFeedback | C/qrencode-3.4.4/rscode.c:317-318 | The inner loop adds feedback times the generator coefficient to every parity byte but the first. |
| RsCoder.Rs.Step | C/qrencode-3.4.4/rscode.c:308-325 | One round, with its memmove, is one step of the shift register for the generator. |
| RsCoder.Rs.Encode | C/qrencode-3.4.4/rscode.c:301-327 | The parity left in the buffer is the shift-register parity, and data followed by parity is a code word: zero at alpha^fcr .. alpha^(fcr+el-1). |
| ReedSolomon.ParityValue | C/qrencode-3.4.4/rscode.c:308-325 | Data times x^el plus parity vanishes at every root of the generator. |
| ReedSolomon.EncodedIsCodeword | C/qrencode-3.4.4/rscode.c:301-327 | Every encoded block is a code word, for every data block. |
| ReedSolomon.ParityUnique | C/qrencode-3.4.4/rscode.c:301-327 | The parity of encode_rs_char is the only one that makes a block a code word. |
| ReedSolomon.MinimumWeight | C/qrencode-3.4.4/rscode.c:190-204 | A code word of at most 255 bytes with at most el nonzero bytes is zero. |
| ReedSolomon.MinimumDistance | C/qrencode-3.4.4/rscode.c:301-327 | Two different code words differ in more than el places, which is what el parity bytes are for. |
| QrSpec.DataLengthMonotone | C/qrencode-3.4.4/qrspec.c:57-104 | Capacity never shrinks when the version grows, for every level. |
| QrSpec.MinimumVersion | C/qrencode-3.4.4/qrspec.c:111-122 | The least version whose capacity suffices, -1 exactly when there is none. |
| QrSpec.BlocksFillSymbol | C/qrencode-3.4.4/qrspec.c:237-259 | For all versions and levels the divisions of getEccSpec leave no rest: the blocks hold exactly the data and parity bytes of the symbol, and each is a valid block of at most 255 bytes. |
| QrSpec.LevelShare | C/qrencode-3.4.4/qrspec.c:57-104 | For all versions and levels half the parity bytes are at least 7, 15, 25 or 30 per cent of the symbol, and less than the next level's. |
| QrBits.BitStream.FromNum | C/qrencode-3.4.4/bitstream.c:66-94 | The bits of a number, most significant first. |
| QrBits.BitStream.FromBytes | C/qrencode-3.4.4/bitstream.c:96-126 | The bits of a string of bytes. |
| QrBits.BitStream.Append | C/qrencode-3.4.4/bitstream.c:128-158 | The bits of both streams in order; the argument is unchanged. |
| QrBits.BitStream.AppendNum | C/qrencode-3.4.4/bitstream.c:160-174 | Appends the low bits of a number. |
| QrBits.BitStream.AppendBytes | C/qrencode-3.4.4/bitstream.c:176-190 | Appends the bits of bytes. |
| QrBits.BitStream.ToByte | C/qrencode-3.4.4/bitstream.c:192-230 | Packs the bits, a last partial byte right-aligned; null exactly for an empty stream. |
| QrBits.UnpackPacked | C/qrencode-3.4.4/bitstream.c:192-230 | A whole number of bytes, packed and unpacked, is the same bits. |
| QrBits.FromToBits | C/qrencode-3.4.4/bitstream.c:66-94 | Reading the bits of a number gives the number, if the width suffices. |
| QrInput.EncodeModeNum | C/qrencode-3.4.4/qrinput.c:410-459 | Mode, length and groups of three digits: the bits of the entry in the layout that the reader below takes apart. |
| QrInput.EncodeModeAn | C/qrencode-3.4.4/qrinput.c:523-568 | Mode, length and pairs of alphanumeric characters: the bits of the entry in the layout of the reader. |
| QrInput.EncodeMode8 | C/qrencode-3.4.4/qrinput.c:593-624 | Mode, length and bytes: the bits of the entry in the layout of the reader. |
| QrInput.EncodeModeKanji | C/qrencode-3.4.4/qrinput.c:675-718 | Mode, length and Kanji codes in 13 bits: the bits of the entry in the layout of the reader. |
| QrInput.EncodeModeStructure | C/qrencode-3.4.4/qrinput.c:734-759 | The header of a structured-append symbol. |
| QrInput.EncodeBitStream | C/qrencode-3.4.4/qrinput.c:1053-1117 | An entry too long for its length field is cut recursively; the bits are those of the pieces in order. |
| QrSamples.AnDigits | C/qrencode-3.4.4/qrinput.c:465-474 | The digits have the values 0 to 9 in alphanumeric mode, and nothing else has. |
| QrSamples.AnLetters | C/qrencode-3.4.4/qrinput.c:465-474 | The capital letters have the values 10 to 35, and nothing else has. |
| QrSamples.AnSigns | C/qrencode-3.4.4/qrinput.c:465-474 | The nine signs have the values 36 to 44, and nothing else has. |
| QrSamples.KanjiCodes | C/qrencode-3.4.4/qrinput.c:647-710 | Which pairs of bytes are Kanji codes, byte by byte, and the 13-bit value of each. |
| QrSamples.LengthFields | C/qrencode-3.4.4/qrspec.c:138-159 | The width of the length field for every mode and version. |
| QrSamples.SampleDigits | C/qrencode-3.4.4/tests/test_qrinput.c:117-124 | The bits of 01234567 in numeric mode. |
| QrSamples.SampleLetters | C/qrencode-3.4.4/tests/test_qrinput.c:95-102 | The bits of AC-42 in alphanumeric mode. |
| QrSamples.SampleBytes | C/qrencode-3.4.4/tests/test_qrinput.c:65-72 | The bits of AC-42 in 8-bit mode. |
| QrSamples.SampleKanji | C/qrencode-3.4.4/tests/test_qrinput.c:56-63 | The bits of two Kanji codes, one of either range. |
| QrSamples.SampleHeader | C/qrencode-3.4.4/tests/test_qrinput.c:362-381 | The bits of the header of the first of 16 symbols. |
| QrSegments.ReadNumBack | C/qrencode-3.4.4/qrinput.c:443-456 | Reading digits undoes writing them, for any length and whatever follows. |
| QrSegments.ReadAnBack | C/qrencode-3.4.4/qrinput.c:551-563 | Reading alphanumeric characters undoes writing them, for any length and whatever follows. |
| QrSegments.ReadBytesBack | C/qrencode-3.4.4/qrinput.c:618-619 | Reading bytes undoes writing them, for any length and whatever follows. |
| QrSegments.ReadKanjiBack | C/qrencode-3.4.4/qrinput.c:698-714 | Reading Kanji undoes writing it, up to the replacement of trailing bytes below 0x40. |
| QrSegments.KanjiCodeOfValue | C/qrencode-3.4.4/qrinput.c:698-710 | The 13-bit value of a code comes back as the code, but with 0x40 added to a trailing byte below 0x40. |
| QrSegments.CanonicalIff | C/qrencode-3.4.4/qrinput.c:647-663 | Kanji data is unchanged by writing and reading if and only if no trailing byte is below 0x40. |
| QrSegments.TrailingByteLost | C/qrencode-3.4.4/qrinput.c:647-663 | The Kanji code 0x82 0x20, whose trailing byte is below 0x40, passes the check and is read back as 0x82 0x60. |
| QrSegments.ReadChunkBack | C/qrencode-3.4.4/qrinput.c:1053-1117 | Reading one segment, header included, undoes writing it. |
| QrSegments.ChunksKeepData | C/qrencode-3.4.4/qrinput.c:1063-1083 | Cutting at the longest announceable length loses no data. |
| QrSegments.ChunksFit | C/qrencode-3.4.4/qrinput.c:1063-1083 | Every piece can be announced by its length field, at every version. |
| QrSegments.ReadStreamBack | C/qrencode-3.4.4/qrinput.c:1355-1390 | A reader that follows section 8.4 of JIS X0510:2004 gets back from the whole stream, whatever follows the terminator, the entries in their pieces. |
| QrSegments.RoundTripExact | C/qrencode-3.4.4/qrinput.c:1355-1390 | The round trip is exact if and only if no Kanji code has a trailing byte below 0x40. |
| QrInput.PayloadLength | C/qrencode-3.4.4/qrinput.c:380-399 | The payload of an entry is exactly as long as estimated. |
| QrInput.QRinput.EstimateVersion | C/qrencode-3.4.4/qrinput.c:977-993 | The do-while ends; its result holds the estimate of some version not below it, or the estimate of some version fits no symbol. |
| QrInput.QRinput.CreateBitStream | C/qrencode-3.4.4/qrinput.c:1127-1141 | Every entry has its bits at the present version, and the total is their length. |
| QrInput.QRinput.ConvertData | C/qrencode-3.4.4/qrinput.c:1154-1179 | Ends and never lowers the version; on success the real bits fit the final version, on failure the bits at the version reached fit no symbol. |
| QrInput.PaddingShape | C/qrencode-3.4.4/qrinput.c:1191-1244 | Padding is zeros, at least four where there is room, to a byte boundary, and then the groups of bits 11101100 and 00010001 in turn, to the end of the symbol. |
| QrInput.PackedPadding | C/qrencode-3.4.4/qrinput.c:1225-1235 | The bytes behind data and terminator are 236 and 17 in turn, by their index. |
| QrInput.AppendPaddingBit | C/qrencode-3.4.4/qrinput.c:1191-1244 | Fills the symbol exactly, with the padding whose bits PaddingShape names one by one; refused exactly when the bits do not fit. |
| QrInput.QRinput.MergeBitStream | C/qrencode-3.4.4/qrinput.c:1355-1390 | The streams of all entries, joined. |
| QrInput.QRinput.GetByteStream | C/qrencode-3.4.4/qrinput.c:1398-1439 | The bytes are the packed stream with its padding, exactly as many as the final version holds, those behind data and terminator 236 and 17 in turn, and reading them gives back the entries; fails only if the data fit no symbol at the version reached. |
| QrVersion.SearchClosed | C/qrencode-3.4.4/qrinput.c:977-993 | The version search in closed form, for every list of entries and level: with the least versions for the estimates at versions 1, 10 and 27, the first if it is at most 9 or none, else the second if neither is above 26, else the third. |
| QrVersion.ConvertedClosed | C/qrencode-3.4.4/qrinput.c:1154-1179 | The outcome of convertData in closed form, for every list, level and first version, from the three estimates and the three real lengths. |
| QrVersion.AcceptedExactly | C/qrencode-3.4.4/qrinput.c:1154-1179 | convertData succeeds if and only if, from the first version or from where the estimates lead, the real length fits in its range of versions, or in the next range that it is raised to, and so on. |
| QrVersion.BestFits | C/qrencode-3.4.4/qrinput.c:977-993 | The least version that holds the data, not below the first one, in terms of the three real lengths; none exactly when no version holds them. |
| QrVersion.BestExactly | C/qrencode-3.4.4/qrinput.c:1154-1179 | When some version holds the data, the least one is what comes out if and only if neither the estimates nor a range passed on the way lead beyond it. |
| QrVersion.VersionKept | C/qrencode-3.4.4/qrinput.c:1154-1179 | A sufficient version is kept if and only if the least version for the estimate in the range that the search ends in is not above it. |
| QrCapacity.EstimateBelowReal | C/qrencode-3.4.4/qrinput.c:903-950 | Without Kanji the estimate of an entry, however long, is never above its real length in the same range of versions. |
| QrCapacity.DigitsRefused | C/qrencode-3.4.4/qrinput.c:977-993 | That a version is found whenever one would do is false: 7089 digits at level L fit version 40, yet the search gives up and convertData fails. |
| QrCapacity.LongestAccepted | C/qrencode-3.4.4/qrinput.c:1154-1179 | At level L with version 0, 2938 bytes is the most, although version 40 holds 2953. |
| QrCapacity.FullSymbolRaised | C/qrencode-3.4.4/qrinput.c:1154-1179 | The estimates can lead above a sufficient version: a symbol of version 26-L that 3277 digits and a header fill to the last bit is made at version 27. |
| QrCapacity.ByteEntryLength | C/qrencode-3.4.4/qrinput.c:1053-1117 | Length of an encoded byte entry in closed form, for any number of pieces. |
| QrStruct.LengthOfCodeExact | C/qrencode-3.4.4/qrinput.c:1002-1042 | n bytes with mode and length fit into the given bits if and only if n does not exceed the result. |
| QrStruct.CutInside | C/qrencode-3.4.4/qrinput.c:1610-1626 | An entry whose estimate does not fit is cut strictly inside, unless its real length fits, and that happens to long Kanji entries only; both parts are entries, unless it is a header; an empty symbol always takes something. |
| QrStruct.EstimateExact | C/qrencode-3.4.4/qrinput.c:903-950 | Where the payload fits one symbol, the estimate is the real length exactly for entries of at most as many bytes as the length field has values, and above it for longer ones, which must be Kanji. |
| QrStruct.PiecesKeepText | C/qrencode-3.4.4/qrinput.c:1600-1652 | The bytes of the pieces in order, with their modes, are those of the input. |
| QrStruct.PiecesFit | C/qrencode-3.4.4/qrinput.c:1600-1652 | Every piece leaves room for the 20 bits of the header. |
| QrStruct.PiecesNotEmpty | C/qrencode-3.4.4/qrinput.c:1600-1652 | No symbol of a series is empty. |
| QrStruct.SplitIsFaithful | C/qrencode-3.4.4/qrinput.c:1578-1676 | The pieces of every input that is split keep its text, fit and are not empty. |
| QrSeries.SplitIsFull | C/qrencode-3.4.4/qrinput.c:1600-1652 | Every symbol but the last is full: not one more unit of what the next begins with would have fitted, neither in an entry of its own nor, where an entry was cut, in that entry. |
| QrStruct.SplitExactly | C/qrencode-3.4.4/qrinput.c:1602-1650 | Exactly which lists of entries can be cut into symbols, from any state of the walk: those all of whose entries find their places in a fold that keeps only a number of bits, where an entry that starts a symbol needs room for the estimate of its last part. |
| QrStruct.SplitOfExactly | C/qrencode-3.4.4/qrinput.c:1578-1676 | A whole input can be cut into symbols if and only if all its entries find their places. |
| QrStruct.NeverStuck | C/qrencode-3.4.4/qrinput.c:1602-1626 | No cut is refused in an input without a Kanji entry of more bytes than the length field has values, and no header is torn in one without headers. |
| QrStruct.SingleEntrySplit | C/qrencode-3.4.4/qrinput.c:1602-1626 | A single entry can be cut into symbols if and only if the estimate of its last part fits, where parts are what a symbol holds. |
| QrStruct.FittingRefused | C/qrencode-3.4.4/qrinput.c:1556-1576 | An entry that fits can be refused: 140 Kanji codes fit one symbol of version 9-L beside the header, but the cut leaves nothing for the second half. |
| QrStruct.HeaderIsTorn | C/qrencode-3.4.4/qrinput.c:1618-1626 | A header that an input already holds can be cut in two: behind 13 bytes at version 1-L. |
| QrStruct.SymbolReadsBack | C/qrencode-3.4.4/qrinput.c:1678-1700 | Every symbol with its header fits its version and reads back as header and piece, exactly so if and only if no Kanji code has a trailing byte below 0x40. |
| QrStruct.CalcParity | C/qrencode-3.4.4/qrinput.c:308-325 | Reading each entry from its end gives the exclusive-or of all bytes. |
| QrStruct.ParityJoin | C/qrencode-3.4.4/qrinput.c:308-325 | Parity of two texts joined is the exclusive-or of their parities, so a cut does not change it. |
| QrStruct.InsertHeader | C/qrencode-3.4.4/qrinput.c:247-273 | Puts the header in front, or refuses numbers out of range. |
| QrStruct.InsertHeaders | C/qrencode-3.4.4/qrinput.c:1678-1700 | With several symbols each gets the total, its number and the parity; a single one is left alone. |
| QrStruct.NextRound | C/qrencode-3.4.4/qrinput.c:1602-1650 | One round of the list walk: the entry joins the symbol, or the symbol is closed, or the cut is refused, or it goes through a header. |
| QrStruct.SplitEntry | C/qrencode-3.4.4/qrinput.c:1556-1576 | Two entries that join to the given one; refused exactly when nothing is left for the second. |
| QrStruct.SplitPieces | C/qrencode-3.4.4/qrinput.c:1598-1652 | The walk ends and makes the pieces, in distinct inputs of the same version and level, or stops exactly where a cut is refused or goes through a header. |
| QrStruct.SplitQRinputToStruct | C/qrencode-3.4.4/qrinput.c:1578-1676 | Makes a series exactly with a version, where no cut is refused or goes through a header, and with at most 16 symbols; then every symbol is its piece behind a header with the parity of the original. |
| QrSplit.EatNum | C/qrencode-3.4.4/split.c:83-121 | Appends the one entry that the run of digits becomes; which mode that is, QrSplit.NumericPays and QrSplit.NumericAtEnd say in bits. |
| QrSplit.EatAn | C/qrencode-3.4.4/split.c:123-170 | Appends an alphanumeric entry, which stops where numeric mode saves bits, or an 8-bit one. |
| QrSplit.EatKanji | C/qrencode-3.4.4/split.c:172-187 | Appends the longest run of Kanji codes. |
| QrSplit.Eat8 | C/qrencode-3.4.4/split.c:189-257 | Appends an 8-bit entry, which stops at Kanji or where another mode saves bits. |
| QrSplit.HandOver | C/qrencode-3.4.4/split.c:104-111 | When eatNum hands its digits to eatAn because that is cheaper, eatAn does not stop in front of them. |
| QrSplit.TakesSome | C/qrencode-3.4.4/split.c:259-280 | No eat function makes an empty run, every entry passes the check of its mode, and Kanji needs the hint. |
| QrSplit.SplitKeepsString | C/qrencode-3.4.4/split.c:259-280 | The data of the entries, one after another, is the string. |
| QrSplit.SplitIsGood | C/qrencode-3.4.4/split.c:259-280 | Every entry of the list passes QRinput_check, and there is at least one for a non-empty string. |
| QrSplit.SplitString | C/qrencode-3.4.4/split.c:259-280 | Ends with success for every string, with the list whose modes and cuts the rows below and above state. |
| QrSplit.DigitsStayNumeric | C/qrencode-3.4.4/split.c:83-121 | A string of digits is one numeric entry. |
| QrSplit.LettersStayAlphanumeric | C/qrencode-3.4.4/split.c:123-170 | A string of capital letters is one alphanumeric entry. |
| QrSplit.BytesStayBytes | C/qrencode-3.4.4/split.c:189-257 | Without the Kanji hint a string of bytes above 127 is one 8-bit entry. |
| QrSplit.KanjiStaysKanji | C/qrencode-3.4.4/split.c:172-187 | With the hint a string of Kanji codes is one Kanji entry. |
| QrSplit.NumericPays | C/qrencode-3.4.4/split.c:95-116 | A run of digits in front of a character of another mode becomes a numeric entry if and only if the real bits of run and character apart are no more than those of both together. |
| QrSplit.NumericAtEnd | C/qrencode-3.4.4/split.c:83-121 | A run of digits at the end, or in front of Kanji, is numeric in any case. |
| QrSplit.AlphanumericPays | C/qrencode-3.4.4/split.c:157-164 | An alphanumeric run in front of another byte stays so if and only if the real bits apart are no more than those of both in 8-bit mode. |
| QrSplit.StopInAnPays | C/qrencode-3.4.4/split.c:135-154 | An alphanumeric segment stops in front of last digits if and only if the real bits of two segments are fewer than those of one. |
| QrSplit.StopInAnCharged | C/qrencode-3.4.4/split.c:135-154 | When another alphanumeric character follows the digits, the header of the third segment is charged one bit too long: exactly when the segment stops, in real bits. |
| QrSplit.StopMissed | C/qrencode-3.4.4/split.c:135-154 | So a stop that pays can be missed: a letter, fifteen digits and a letter become one segment of 109 bits at version 10, although three take 108. |
| QrSplit.StopIn8Pays | C/qrencode-3.4.4/split.c:206-243 | An 8-bit segment stops in front of digits or alphanumeric characters if and only if the real bits of two segments are fewer than those of one. |
| QrSplit.StopIn8Charged | C/qrencode-3.4.4/split.c:206-243 | The same with a third segment behind them, when 8-bit bytes go on. |
| QrSplit.EightEndExactly | C/qrencode-3.4.4/split.c:203-247 | An 8-bit segment ends at the end of the string, at Kanji or where a stop pays, and has passed over no Kanji and no stop that pays. |
| QrSplit.AnEndExactly | C/qrencode-3.4.4/split.c:135-154 | An alphanumeric segment has passed over no digits for which a stop pays. |
| QrSplit.UpperEverywhere | C/qrencode-3.4.4/split.c:282-304 | Without the Kanji hint every lower-case letter is raised and nothing else changes. |
| QrSplit.DupAndToUpper | C/qrencode-3.4.4/split.c:282-304 | In place on a copy; Kanji pairs are kept. |
| QrSplit.SplitStringToQRinput | C/qrencode-3.4.4/split.c:306-326 | Refuses exactly the empty string. |
| QrSplit.StringToBytes | C/qrencode-3.4.4/qrencode.c:638-669 | From a string to the bytes of a symbol: reading the bytes gives the (raised) string back, with the Kanji hint if and only if no code has a trailing byte below 0x40; failure is that of convertData. |
| QrFrame.ZigzagIsOnto | C/qrencode-3.4.4/qrencode.c:316-371 | The zig-zag places cover every cell outside column 6. |
| QrFrame.ZigzagIsOneToOne | C/qrencode-3.4.4/qrencode.c:316-371 | No cell is on two places. |
| QrFrame.ZigzagOrderIsExact | C/qrencode-3.4.4/qrencode.c:316-371 | The order of free cells has exactly the unreserved cells outside column 6, each once, in increasing place. |
| QrFrame.StepLands | C/qrencode-3.4.4/qrencode.c:330-360 | What one step does to x, y and direction, over the timing column too, for all widths 1 modulo 4 from 21 on. |
| QrFrame.SkipReserved | C/qrencode-3.4.4/qrencode.c:337-346 | Entering columns 5 and 4 at row 9 skips reserved cells only. |
| QrFrame.FrameFiller.Walk | C/qrencode-3.4.4/qrencode.c:322-371 | The tail-recursive part of next: the next free cell, or none when none is left. |
| QrFrame.FrameFiller.Advance | C/qrencode-3.4.4/qrencode.c:316-371 | Successive calls give the free cells in zig-zag order, each once, and then report the end. |
| QrRaw.SpotsMatchPositions | C/qrencode-3.4.4/qrencode.c:167-173 | The row and column that getCode computes for each count are those of the column-major order, rows of unequal length included. |
| QrRaw.PositionsMatchSpots | C/qrencode-3.4.4/qrencode.c:167-173 | Every byte of every block has its count, so each is emitted once. |
| QrRaw.QRRawCode.GetCode | C/qrencode-3.4.4/qrencode.c:162-183 | Call number k gives byte k of the interleaved code, zeros behind the end. |
| QrRaw.DeinterleaveUndoes | C/qrencode-3.4.4/qrencode.c:162-183 | Putting the interleaved code back into blocks gives the blocks. |
| QrRaw.InitBlock | C/qrencode-3.4.4/qrencode.c:62-70 | A block's parity makes it a code word. |
| QrRaw.InitRSblock | C/qrencode-3.4.4/qrencode.c:72-109 | The blocks hold the data in order, have the sizes of the tables and are code words. |
| QrEncode.NewRaw | C/qrencode-3.4.4/qrencode.c:112-154 | The raw code of an input: blocks of code words whose data reads back as the entries. |
| QrEncode.FillFrame | C/qrencode-3.4.4/qrencode.c:502-524 | The free cells in zig-zag order hold the interleaved bits, most significant first, and light remainder bits; everything else is unchanged; it stops exactly when cells run out. |
| QrEncode.ReceiveBlocks | C/qrencode-3.4.4/qrencode.c:162-183 | Packing, de-interleaving and joining undo interleaving. |
| QrPatterns.PatternsWhere | C/qrencode-3.4.4/qrspec.c:439-520 | The modules of all patterns outside column 6 are nine disjoint rectangles of columns and rows. |
| QrPatterns.FreeModules | C/qrencode-3.4.4/qrspec.c:439-520 | For all 40 versions the modules outside column 6 that no pattern takes are exactly 8 times the bytes of the symbol plus the remainder of the capacity table, so the fill never runs out and leaves nothing over. |
| QrPatterns.PatternsShape | C/qrencode-3.4.4/qrspec.c:439-520 | In every frame rows 0 to 8 of columns 4 and 5 are taken and the bottom right corner is free, which the frame filler relies on. |
| QrNewFrame.PutAlignmentPattern | C/qrencode-3.4.4/qrspec.c:313-349 | In place: alignment patterns at the grid of positions, on row 6 and on column 6, for every version, one over another and over the timing pattern. |
| QrNewFrame.CreateFrame | C/qrencode-3.4.4/qrspec.c:439-520 | In place, all patterns one over another make the frame that is defined module by module: rings of the finder and alignment patterns, alternating timing, the bits of the version information in two places. |
| QrNewFrame.FrameReserved | C/qrencode-3.4.4/qrspec.c:439-520 | Exactly the modules of the patterns have the reserved bit; all others are zero. |
| QrNewFrame.FormatArea | C/qrencode-3.4.4/qrspec.c:472-488 | The modules of the format information are reserved and light, as masking relies on. |
| QrCodes.FormatCode | C/qrencode-3.4.4/qrspec.c:379-391 | Each of the 32 format words, covered with 0x5412, is a multiple of x^10 + x^8 + x^5 + x^4 + x^2 + x + 1 over GF(2), and its upper five bits are level (L 01, M 00, Q 11, H 10) and mask. |
| QrCodes.FormatInfoDistinct | C/qrencode-3.4.4/qrspec.c:379-391 | So no two of the 32 words are equal. |
| QrCodes.VersionCode | C/qrencode-3.4.4/qrspec.c:358-372 | Each of the 34 version words is a multiple of x^12 + x^11 + x^10 + x^9 + x^8 + x^5 + x^2 + 1, and its upper six bits are the version. |
| QrPicture.Corners | C/qrencode-3.4.4/qrspec.c:451-466 | The three corners show the finder pattern and its separator, module by module, and mirror each other. |
| QrPicture.TimingLines | C/qrencode-3.4.4/qrspec.c:481-491 | The timing lines alternate from corner to corner without a break, alignment patterns on them or not. |
| QrPicture.VersionCopies | C/qrencode-3.4.4/qrspec.c:493-514 | The bits of the version word, three a row at the top right and mirrored at the bottom left. |
| QrPicture.Spacing | C/qrencode-3.4.4/qrspec.c:272-283 | The spacing of alignment patterns in closed form for every version, with the one exception of version 32. |
| QrPicture.FirstByte | C/qrencode-3.4.4/qrencode.c:316-371 | In every version the first byte is the 2 by 4 block in the bottom right corner, from right to left and upwards. |
| QrSymbol.CandidateAnnounces | C/qrencode-3.4.4/mask.c:34-75 | Both copies of the format word in a masked symbol, bit by bit at the modules that the standard names. |
| QrSymbol.CandidateNamed | C/qrencode-3.4.4/mask.c:34-75 | A receiver that knows the BCH layout, and not the table of words, reads level and mask. |
| QrSymbol.CandidateReads | C/qrencode-3.4.4/mask.c:164-180 | From the colours alone of any of the eight masked symbols a receiver decodes level and mask from the bits of the format word, takes the mask off and reads the bits that were filled in. |
| QrSymbol.FillSymbol | C/qrencode-3.4.4/qrencode.c:485-524 | The frame of the version that convertData comes to, filled with the interleaved code; fails exactly when convertData does. |
| QrSymbol.EncodeMask | C/qrencode-3.4.4/qrencode.c:463-545 | From the input list to the finished symbol and back, for every list of entries, level, version and mask: it fails exactly when convertData does or the mask is above 7, the mask is the one asked for or the best, the format word in the symbol names the level and that mask, and a receiver that sees only the colours of the modules, and decodes level and mask from them, reads the entries. |
| QrMask.CalcRunLength | C/qrencode-3.4.4/mask.c:244-272 | The runs of a row or column, -1 standing for a missing first light run. |
| QrMask.FinderExact | C/qrencode-3.4.4/mask.c:199-213 | The run-length test holds if and only if the modules 1:1:3:1:1 of some scale begin there with a light area of four times the scale on a side, the outside being light. |
| QrMask.RunsScoreLine | C/qrencode-3.4.4/mask.c:188-219 | Scoring runs equals the module-level definition of features 1 and 3, for every line. |
| QrMask.CalcN1N3 | C/qrencode-3.4.4/mask.c:188-219 | The points of the line. |
| QrMask.CalcN2 | C/qrencode-3.4.4/mask.c:221-242 | Three points for every 2 by 2 block of one colour. |
| QrMask.EvaluateSymbol | C/qrencode-3.4.4/mask.c:274-294 | The module-level points of the whole symbol. |
| QrMask.MakeMaskedFrame | C/qrencode-3.4.4/mask.c:86-141 | The masked frame and the number of its dark modules. |
| QrSamples.MaskPicture | C/qrencode-3.4.4/tests/test_mask.c:9-66 | Where each of the eight masks inverts, as tiles that are repeated without end. |
| QrMask.RatioMeans | C/qrencode-3.4.4/mask.c:315-316 | Ten points for every five per cent that the share of dark modules, rounded to the nearest, is away from a half. |
| QrMask.FlipTwice | C/qrencode-3.4.4/mask.c:94-98 | A mask applied twice is no mask; function patterns stay. |
| QrMask.UnmaskMasked | C/qrencode-3.4.4/mask.c:86-141 | A mask applied twice to a whole frame is no mask: a receiver can take every mask off. |
| QrMask.WriteFormatInformation | C/qrencode-3.4.4/mask.c:34-75 | Each bit goes to its two modules, nothing else changes, and the result is the number of dark modules added. |
| QrMask.Mask | C/qrencode-3.4.4/mask.c:296-330 | The candidate with the fewest points of all eight, the first of several. |
| QrMask.MakeMask | C/qrencode-3.4.4/mask.c:164-180 | The candidate that the caller asks for, null exactly for a mask out of range. |
| QrMask.DemeritBound | C/qrencode-3.4.4/mask.c:300-318 | The points stay below INT_MAX, so the first candidate is always taken. |
| FatChains.Marks | C/dosfstools-2.11/dosfsck/dosfsck.h:146-158 | Bad and end-of-file marks of the three widths, and of Atari disks. |
| FatChains.PureCycles | C/dosfstools-2.11/dosfsck/fat.c:280-294 | Orphans that are all linked to from among themselves form disjoint cycles. |
| FatReclaim.DosFs.LinkOrphans | C/dosfstools-2.11/dosfsck/fat.c:265-277 | Ends links that lead to no orphan and counts predecessors. |
| FatReclaim.DosFs.WalkFrom | C/dosfstools-2.11/dosfsck/fat.c:238-253 | Tags along a chain and cuts where it meets a tagged cluster; it never meets a file. |
| FatReclaim.DosFs.TagFree | C/dosfstools-2.11/dosfsck/fat.c:233-255 | Afterwards every untagged orphan has a predecessor. |
| FatReclaim.LeftoverIsOnCycle | C/dosfstools-2.11/dosfsck/fat.c:280-290 | What tag_free leaves is on pure cycles, so prev is 1 there and never goes below zero. |
| FatReclaim.LeftoverComesBack | C/dosfstools-2.11/dosfsck/fat.c:280-290 | Following the links from a leftover comes back to it. |
| FatReclaim.DosFs.BreakCycle | C/dosfstools-2.11/dosfsck/fat.c:280-291 | Breaks one cycle, at its first cluster, and makes a new chain head; nothing left means every orphan is tagged. |
| FatReclaim.DosFs.TagAll | C/dosfstools-2.11/dosfsck/fat.c:278-293 | The outer loop ends, with every orphan tagged. |
| FatReclaim.CutsAreNeeded | C/dosfstools-2.11/dosfsck/fat.c:233-293 | A link is cut only where it led to no orphan, lay on a cycle, or another link still leads to the same cluster. |
| FatReclaim.DosFs.MeasureChain | C/dosfstools-2.11/dosfsck/fat.c:303-308 | Walks one chain from its head to its end, counting clusters and adding sizes in 32 bits. |
| FatReclaim.DosFs.RecoverFiles | C/dosfstools-2.11/dosfsck/fat.c:294-310 | One file for each chain, its head the cluster with prev 0; every cluster is counted once. The start fields of each file lead to its chain, where the cluster numbers fit them, and its size is clusters times cluster size modulo 2^32. |
| FatReclaim.DosFs.ReclaimFile | C/dosfstools-2.11/dosfsck/fat.c:258-311 | For every table of orphans with merges and cycles: ends; every allocated cluster has an owner; the dummy owns exactly the former orphans, in disjoint chains that end properly and whose heads are exactly those with prev 0; only orphans change, and only to end-of-file where needed; no internal error is reachable. Each file's start fields name the head of its chain, both halves on FAT32, and a reader of the table finds from there exactly the chain. |
| FatReclaim.EntriesLead | C/dosfstools-2.11/dosfsck/fat.c:294-311 | Every entry leads to its chain, whenever cluster numbers have 16 bits, or 32 on FAT32. |
| FatReclaim.CountRecovered | C/dosfstools-2.11/dosfsck/fat.c:294-310 | The clusters of all chains are as many as the dummy owns. |
| FatReclaim.SizesAddUp | C/dosfstools-2.11/dosfsck/fat.c:303-308 | The sizes of the recovered files never exceed clusters times cluster size, and add up to it if and only if every chain has fewer than 2^32 bytes. |
| FatReclaim.StraightRecovered | C/dosfstools-2.11/dosfsck/fat.c:294-310 | From a table with one chain of n clusters exactly one chain is recovered, with all n. |
| FatReclaim.ReclaimStraight | C/dosfstools-2.11/dosfsck/fat.c:258-311 | reclaim_file leaves such a table alone and makes one file of n clusters, its size taken modulo 2^32. |
| FatReclaim.ReclaimLongChain | C/dosfstools-2.11/dosfsck/fat.c:258-311 | From a chain of 65536 clusters of 64 KiB reclaim_file makes a file of size 0. |
| CheckFile.Checker.TruncateFile | C/dosfstools-2.11/dosfsck/check.c:287-302 | Keeps the first clusters of a chain, ends it there and frees the rest; dies exactly at a bad end, with what is described changed so far. |
| CheckFile.Checker.ClaimChain | C/dosfstools-2.11/dosfsck/check.c:440-520 | Takes the longest run of clusters that are sound, needed and unowned, and ends the chain behind it; gives up exactly when the chain is too long for the size and ends in a bad cluster. |
| CheckFile.Checker.CheckFile | C/dosfstools-2.11/dosfsck/check.c:393-530 | Afterwards the file owns exactly a properly ended chain, the longest prefix of its old one that is sound, needed and unowned, and its size needs exactly those clusters; the rest is freed only when the size does not need it; other files and tables are unchanged. It gives up exactly when it has to truncate a chain that ends in a bad cluster, and what holds then is stated too. |
| CheckFile.OwnsPrefix | C/dosfstools-2.11/dosfsck/check.c:450-515 | A prefix of a path, once ended and owned, is the file's chain. |
| CheckFile.BadEndGivesUp | C/dosfstools-2.11/dosfsck/check.c:287-302 | A file of 512 bytes with a chain of three clusters whose last entry is bad: one cluster is kept, and freeing the others is given up. |
| Geometry.CountNeverExceedsEstimate | C/dosfstools-2.11/mkdosfs/mkdosfs.c:914-973 | For 12, 16 and 32 bits the recomputed cluster count is at most the estimate, so count + 2 entries fit the FAT. |
| Geometry.WrapIsHuge | C/dosfstools-2.11/mkdosfs/mkdosfs.c:920-971 | When the FATs do not fit, the unsigned subtraction wraps to a count far above every limit, so the attempt is rejected. |
| Geometry.WordsFit | C/dosfstools-2.11/mkdosfs/mkdosfs.c:914-972 | For the parameters admitted nothing else leaves its machine word. |
| Geometry.Facts12 | C/dosfstools-2.11/mkdosfs/mkdosfs.c:918-926 | The estimate is the greatest count for which data and FATs fit, and the FAT has room for it without a sector too many. |
| Geometry.Facts16 | C/dosfstools-2.11/mkdosfs/mkdosfs.c:937-945 | The same for 16 bits. |
| Geometry.Facts32 | C/dosfstools-2.11/mkdosfs/mkdosfs.c:965-973 | The same for 32 bits. |
| Geometry.Try12Exactly | C/dosfstools-2.11/mkdosfs/mkdosfs.c:918-935 | A 12-bit attempt is accepted if and only if the FATs fit and the count of whole clusters beside them is between 1 and 4078. |
| Geometry.Try16Exactly | C/dosfstools-2.11/mkdosfs/mkdosfs.c:937-961 | A 16-bit attempt is accepted if and only if the FATs fit and the count is at most 65518, and at least 4085 unless asked for. |
| Geometry.Try32Exactly | C/dosfstools-2.11/mkdosfs/mkdosfs.c:965-984 | A 32-bit attempt is accepted if and only if the FATs fit and the count is at most 268435440, and at least 65529 unless asked for. |
| Geometry.Try12Sound | C/dosfstools-2.11/mkdosfs/mkdosfs.c:918-935 | An accepted 12-bit attempt has at most 4078 clusters, each with an entry. |
| Geometry.Try16Sound | C/dosfstools-2.11/mkdosfs/mkdosfs.c:937-961 | An accepted 16-bit attempt has at most 65518 clusters, at least 4085 unless asked for. |
| Geometry.Try32Sound | C/dosfstools-2.11/mkdosfs/mkdosfs.c:965-984 | An accepted 32-bit attempt has an entry for each cluster and at least 65529 clusters unless asked for. |
| Geometry.Mkdosfs.SetupTables | C/dosfstools-2.11/mkdosfs/mkdosfs.c:893-1038 | The doubling search finds the smallest accepted cluster size, or none is accepted. |
| Geometry.ChosenIsSound | C/dosfstools-2.11/mkdosfs/mkdosfs.c:914-1038 | Clusters, FAT length and limits of what is made hold together. |
| Geometry.ChosenIsMost | C/dosfstools-2.11/mkdosfs/mkdosfs.c:997-1001 | Without a wish neither 12 nor 16 bits have more clusters at the chosen size, and 12 bits are taken for as many. |
| Geometry.DosFs.ReadBoot | C/dosfstools-2.11/dosfsck/boot.c:269-366 | For every boot sector the places of FATs, root directory and data, the cluster count and the FAT width, in the 32-bit and 64-bit words of the source, and whether the checker goes on. |
| Geometry.BootWords | C/dosfstools-2.11/dosfsck/boot.c:293-300 | For every boot sector the other sizes and places keep within their words. |
| Geometry.CountIsReal | C/dosfstools-2.11/dosfsck/boot.c:299-300 | The cluster count is that of the data area if and only if the device does not end a whole cluster or more in front of it; otherwise it is huge. |
| Geometry.EntryTestExactly | C/dosfstools-2.11/dosfsck/boot.c:350-353 | The test for FAT entries is the true one when the size of a FAT is not zero in its 32-bit word; when it is, everything passes but a count of 2^64 - 1. |
| Geometry.EveryClusterHasEntry | C/dosfstools-2.11/dosfsck/boot.c:350-353 | An accepted boot sector has a FAT entry for every cluster if and only if the bytes of a FAT are no multiple of 2^32, none included. |
| Geometry.NoFatAccepted | C/dosfstools-2.11/dosfsck/boot.c:350-353 | A boot sector with a FAT of no sectors and 2847 clusters is accepted. |
| Geometry.WholeWrapAccepted | C/dosfstools-2.11/dosfsck/boot.c:350-353 | A FAT of exactly 4 GiB is accepted and has size 0 for the checker. |
| Geometry.LongFatRefused | C/dosfstools-2.11/dosfsck/boot.c:350-353 | A FAT of more than 4 GiB with entries for all clusters is refused for want of entries. |
| Geometry.NoDataRefused | C/dosfstools-2.11/dosfsck/boot.c:299-353 | When FATs and root directory pass the end of the device, the count is 2^64 - 32 in one case, the width 16, and the boot sector is refused. |
| Geometry.NoWrap | C/dosfstools-2.11/dosfsck/boot.c:293-295 | While a FAT has fewer than 2^32 bytes, its size is the true one and the root directory follows the FATs. |
| Geometry.CheckerAgrees | C/dosfstools-2.11/dosfsck/boot.c:285-353 | The checker derives the same cluster count, and the same FAT width if and only if it is not a 16-bit FAT, asked for, with fewer than 4085 clusters; it accepts exactly with at most two FATs and a root directory of whole sectors. |
| Geometry.MakeAndRead | C/dosfstools-2.11/dosfsck/boot.c:285-353 | The two programs one after the other: the checker finds the maker's cluster count; something is made exactly when a cluster size is accepted, and with an automatic FAT size the programs always agree on the FAT width. |
| Geometry.FloppyMisread | C/dosfstools-2.11/dosfsck/boot.c:325-330 | Maker and checker can disagree on the FAT width: a 1440 KiB floppy with a 16-bit FAT asked for is made with 2823 clusters and read as 12-bit. |
| DiskIo.Disk.FsRead | C/dosfstools-2.11/dosfsck/io.c:88-105 | The bytes that a plain array with all writes applied would hold; fails only behind the end of the device. |
| DiskIo.Disk.Overlay | C/dosfstools-2.11/dosfsck/io.c:95-103 | The two forms of memcpy overlay exactly the common part. |
| DiskIo.Disk.FsWrite | C/dosfstools-2.11/dosfsck/io.c:121-140 | The bytes written are those read back at their places and all others stay; the device changes only when writing at once. |
| DiskIo.Disk.FsFlush | C/dosfstools-2.11/dosfsck/io.c:143-163 | The device becomes the view. |
| DiskIo.Disk.FsClose | C/dosfstools-2.11/dosfsck/io.c:166-181 | All changes reach the device or none; the result says whether there were any. |
| DiskIo.AppliedFirst | C/dosfstools-2.11/dosfsck/io.c:143-163 | Writing out from the front of the list gives what applying the whole list gives. |
| DiskIo.PatchedBytes | C/dosfstools-2.11/dosfsck/io.c:88-140 | What has just been written is read back, byte by byte, and every other byte is unchanged. |
| DiskIo.Run | C/dosfstools-2.11/dosfsck/io.c:88-181 | For every run of reads and writes with any overlaps the reads are those of the plain array, and the device ends as that array or as it was. |
| JsonGrammar.TreeParses | C/cjson/cJSON.c:287-439 | Every text of a grammar, which gives arrays and objects gaps of whitespace anywhere between their parts, is parsed to the value of its tree, with what follows left over. |
| JsonGrammar.AcceptsExactly | C/cjson/cJSON.c:264-439 | A whole text is accepted with a value if and only if it is a text of the grammar for that value, or a string literal whose closing quote is missing. |
| JsonUnicode.Utf8Decodes | C/cjson/cJSON.c:192-200 | The bytes of every code point decode to it under section 4 of RFC 3629. |
| JsonUnicode.EscapeDecodes | C/cjson/cJSON.c:179-200 | A single escape, hexadecimal digits of either case, becomes bytes that decode to its code point. |
| JsonUnicode.PairDecodes | C/cjson/cJSON.c:179-200 | So does a surrogate pair. |
| JsonUnicode.EveryCodePoint | C/cjson/cJSON.c:155-209 | Every code point from 1 to 0x10FFFF that is no surrogate, written as one escape or as a pair, is parsed to bytes that decode to that code point alone. |
| JsonUnicode.DroppedEscape | C/cjson/cJSON.c:180-188 | An escape of zero, or of a surrogate alone, leaves nothing behind, without an error. |
| JsonUnicode.LetterEscapes | C/cjson/cJSON.c:172-202 | What every escape of one character stands for, itself if it is none of b, f, n, r and t. |
| JsonNumber.NumberValue | C/cjson/cJSON.c:96-115 | Every number of the grammar of RFC 8259 is parsed to its rational value, sign, digits, fraction and exponent, for every length. |
| JsonRoundTrip.ParsePrintedString | C/cjson/cJSON.c:215-248 | Parsing a printed string gives the string, for every escape and control character. |
| JsonRoundTrip.ParsePrintedInt | C/cjson/cJSON.c:96-138 | Parsing a printed 32-bit integer gives it. |
| JsonRoundTrip.ParsePrinted | C/cjson/cJSON.c:287-507 | Parsing the text of any tree at any depth, formatted or not, with a delimiter behind it, gives the tree and stops there. |
| JsonRoundTrip.ParseUndoesPrint | C/cjson/cJSON.c:264-284 | cJSON_Parse of cJSON_Print or cJSON_PrintUnformatted is the tree, and the whole text is used. |
| JsonUnicode.ControlPrinted | C/cjson/cJSON.c:231-245 | A control character without a letter of its own is printed as an escape of four digits. |
| JsonRoundTrip.SampleNested | C/cjson/cJSON.c:440-507 | The layout of an object in an object: a member a line, as many tabs as braces are open, a tab behind the colon. |
| JsonRoundTrip.SampleTwo | C/cjson/cJSON.c:440-507 | The layout of two members. |
| JsonRoundTrip.SampleEmpty | C/cjson/cJSON.c:450-459 | An empty object in an object is printed over two lines. |
| JsonRoundTrip.SampleArray | C/cjson/cJSON.c:388-402 | Items of an array are printed on one line. |
| JsonMinify.MinifyPrinted | C/cjson/cJSON.c:581-596 | Minifying a printed tree gives its unformatted text. |
| JsonMinified.MinifiedCompact | C/cjson/cJSON.c:581-596 | No space, tab, carriage return or newline is left outside string literals, whatever the text. |
| JsonMinified.MinifyKeepsValue | C/cjson/cJSON.c:581-596 | A text that the parser accepts as a whole, with closed literals, complete escapes and no slash outside literals, keeps its value when it is minified. |
| JsonMinified.TextRunsTogether | C/cjson/cJSON.c:581-596 | One that is accepted with text left over need not: from 1 and 2, a space between them, minifying makes 12. |
| JsonMinify.Minify | C/cjson/cJSON.c:581-596 | In place, for every text whose comments and literals are closed; the write index never passes the read index. |
| JsonMinify.Token | C/cjson/cJSON.c:586-592 | One step of the loop keeps the unread text intact. |
| JsonCode.SkipSpace | C/cjson/cJSON.c:261 | Stops at the first byte above 32, or at the end. |
| JsonCode.ScanNumber | C/cjson/cJSON.c:96-115 | The loops of parse_number over sign, digits, fraction and exponent. |
| JsonCode.ScanString | C/cjson/cJSON.c:155-212 | The loop of parse_string gives the value, place and outcome of ParseString, whose escapes the rows of JsonUnicode state. |
| JsonCode.CountString | C/cjson/cJSON.c:158-162 | The first loop counts the bytes between the quotes, an escape as one. |
| JsonCode.ParsedFits | C/cjson/cJSON.c:158-209 | What the second loop writes is never longer than that count, for every text whose escapes are complete, so the buffer suffices. |
| JsonCode.FillString | C/cjson/cJSON.c:163-209 | Writing into a buffer of that size, with the terminating zero, stays inside and leaves the parsed string. |
| JsonCode.ScanValue | C/cjson/cJSON.c:287-299 | The recursive parser. |
| JsonCode.ScanArray | C/cjson/cJSON.c:320-345 | The loop of parse_array, error cases included. |
| JsonCode.ScanObject | C/cjson/cJSON.c:406-439 | The loop of parse_object, error cases included. |
| JsonCode.WriteString | C/cjson/cJSON.c:215-248 | The length computed first is exactly the length written. |
| JsonCode.WriteValue | C/cjson/cJSON.c:302-317 | The printer, recursively, gives the text of Print. |
| JsonCode.ComposeArray | C/cjson/cJSON.c:388-402 | Items and separators never pass the end of the buffer, and make the text. |
| JsonCode.ComposeObject | C/cjson/cJSON.c:480-506 | Members and separators never pass the end of the buffer, and make the text. |
| Crc32.MakeCrcTable | C/erase_nand/crc32.c:54-75 | The terms spell 0xedb88320, and each entry is eight steps of the register on its byte. |
| Crc32.Do1IsFeed | C/erase_nand/crc32.c:150 | A table look-up is eight single-bit steps. |
| Crc32.Crc32 | C/erase_nand/crc32.c:156-175 | The unrolled table form equals the bit-at-a-time register, complemented before and after. |
| Crc32.CheckValue | C/erase_nand/crc32.c:156-175 | The check value of CRC-32: 0xcbf43926 for the digits from 1 to 9. |
| Crc32.CrcJoin | C/erase_nand/crc32.c:156-175 | crc32(crc32(c, a), b) = crc32(c, a + b). |
| Crc32.HndCrc32 | C_TEST/test_burn_img.c:171-180 | The bit-at-a-time register over the data, without complements. |
| Crc32.CaculateCrc | C_TEST/test_burn_img.c:285-308 | For any chunking the image checksum is the complement of crc32 of the whole. |
| Crc32.RegisterInjective | C/erase_nand/crc32.c:54-75 | Two registers stay different under any message. |
| Crc32.DamageIsDetected | C/erase_nand/crc32.c:156-175 | Damage within any four neighbouring bytes always changes the checksum. |

## Left out

- The on-disk entry that `set_fat` writes (its twelve-bit case at the last cluster does not line up with `get_fat`): `set_fat` is an update of the table in memory.
- `read_fat`, `fix_bad`, `reclaim_free`, `update_free`: tables are taken as `read_fat` leaves them, every entry 0, a cluster, bad or end-of-file.
- `alloc_rootdir_entry`: the recovered directory entries are a list of start and size, their place and names are left out.
- CheckFile.Checker.CheckFile: the FAT32 root directory, dot entries, interactive answers and a start cluster of 1 (whose entry is never loaded) are left out, and the chain must be acyclic, which `test_file` sees to.
- Geometry.DosFs.ReadBoot: `unsigned long` and `off_t` have 64 bits; the FSINFO sector, the backup boot sector and the test read of the last sector are left out, as are Atari formats.
- Geometry.Mkdosfs.SetupTables: the boot code, volume label, backup boot sector and bad-block marking are left out; the initial guess of the cluster size is a parameter, and file systems so large that a product leaves its machine word are left out (Geometry.WordsFit).
- DiskIo.Disk.FsFlush: failed and short writes are left out; a write behind the end extends the image with zeros.
- JsonRoundTrip.ParseUndoesPrint: numbers are 32-bit integers; other doubles and their formatting are left out.
- JsonNumber.NumberValue: arithmetic in the parser is exact, rounding to doubles is left out.
- JsonMinified.MinifyKeepsValue: texts with comments are left out, and so are those with a slash outside literals.
- JsonMinify.Minify: texts with an unclosed comment or literal, for which the source reads past the end, are left out.
- JsonCode.ScanString: malformed `\u` escapes that run past the end are reported as a separate outcome, and JsonCode.FillString leaves them out.
- JsonCode.WriteValue: nodes, their links and allocation are values; reference nodes are left out.
- QrStruct.SplitQRinputToStruct: once a header that the input already holds is cut in two, the source reads bytes that are not there, and nothing is said of what comes out; nor about tail pointers.
- QrNewFrame.NewFrame: the cache of frames kept between calls is left out.
- QrSymbol.EncodeMask: the receiver knows the version from the width of the symbol, and reads modules without errors.
- QrFrame.FrameFiller.Advance: nothing is said about calls after the end has been reported.
- RsCoder.InitRsChar: the list of coders kept between calls (`init_rs`), `prim` other than 1, other symbol sizes and other fields are left out; the exit for a polynomial that is not primitive cannot be taken.
- Crc32.MakeCrcTable: the table is built as under DYNAMIC_CRC_TABLE; the literal tables, which hold the same values, are not repeated, and registers have 32 bits.
- Micro QR, FNC1 and ECI, mutexes, memory exhaustion and freeing.
- Image output, sockets, USB, flash and the other programs of the repository.
