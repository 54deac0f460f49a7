# The IJG JPEG library: entropy coding, controllers, scripts and passes

This project models the parts of the JPEG codec in `mozilla/jpeg/` that are hard to
get right, and proves that they do what ITU-T T.81 and the library's own comments
ask of them.

- **Huffman tables.** `Arith`, `PrefixCodes`, `HuffmanForest`, `OptTable`,
  `CodeLengths`, `OptTableUse` and `OptTableLimit`: the table builder of
  section K.2 finds optimal code lengths, limits them to 16 bits, and its tables are
  fit for use. `HuffTable` and `DerivedTables`: canonical codes, and the encoder's
  and decoder's derived tables.
- **Sequential coding.** `Bits`, `Words`, `BitWriter`, `Tokens`, `TokenWriter`,
  `Blocks`, `SeqCodec`, `McuCodec` and `SeqEncoder` write scans; `SeqGather` and
  `SeqOptimize` gather statistics and turn them into tables; `ByteStream`,
  `BitSource`, `BitReader`, `Markers`, `McuReading`, `SeqDecoder` and `CoefInput`
  read them; `Segments` and `SeqRoundTrip` connect the two.
- **Progressive coding.** `ProgCodec`, `ProgRefine`, `ProgBands`, `ProgBounds`,
  `ProgScan` and `ProgStream` say what the four kinds of scan consist of;
  `ProgEmitter`, `ProgEncoder`, `ProgPass` and `ProgOptimize` are the encoder,
  `ProgReading`, `ProgInPlace`, `ProgDecoder` and `ProgInput` the decoder,
  which works in place and can undo what it has done; `ProgRoundTrip` and
  `ScriptRoundTrip` show that the scans of a script rebuild every coefficient.
- **Scripts and passes.** `Scripts`, `SimpleProgression`, `PassMachine` and
  `PassTables`.
- **Controllers.** `RowContext` (the decoder's two permuted row lists),
  `PrepOutput`, `PrepContext`, `PrepSimple` and `Preprocessing` (the encoder's row
  buffers), `CompressMain`, `CoefBlocks`, `CoefOutput`, `CoefLaws`,
  `EntropyCoding` and `ScanOutput`, which takes an image's blocks all the way to bytes and back.

Objects whose methods update their fields are classes here too, with the same
fields; each method is proved against a function of the old state or of the whole
input, and the laws are lemmas about these functions. Suspension is modelled as the
source has it: a destination with limited room, or a source of which only part has
arrived, answers FALSE, and the call is made again later. Bit buffers are integers
with the wrap-around of 32-bit words written out, beside a ghost sequence of bits.
Error exits are results (`Errors`). An image row or an iMCU row's place in a buffer
is identified by a label, the number of the row it holds.

`dafny verify dfyconfig.toml` checks everything.

## Model

| member | source | states |
|---|---|---|
| `PrefixCodes.KraftInequality` | mozilla/jpeg/jchuff.c:676-776 | the words of any prefix-free code have Kraft sum at most 1 |
| `PrefixCodes.OptimalBeatsPrefixCodes` | mozilla/jpeg/jchuff.c:676-776 | lengths of least cost among all lengths with Kraft sum at most 1 cost no more than the words of any prefix code |
| `HuffmanForest.FinishedDepth` | mozilla/jpeg/jchuff.c:730-788 | a word of d bits needs a total count of at least F(d+2) |
| `OptTable.FindLeast` | mozilla/jpeg/jchuff.c:733-754 | the two search loops find the two smallest counts, of equal ones those of the larger symbols; a second one is missing exactly when one branch is left |
| `OptTable.BuildCodeSizes` | mozilla/jpeg/jchuff.c:717-776 | the merge loop over the chains terminates, and its `codesize[]` belongs to a forest that is optimal, complete and deep at most as the Fibonacci bound allows |
| `OptTable.OptimalSizes` | mozilla/jpeg/jchuff.c:704-776 | Kraft sum exactly 1, least total of count times length over all prefix codes on the used symbols and the pseudo-symbol, which has a longest word |
| `OptTable.NoOverflow` | mozilla/jpeg/jchuff.c:778-788 | `JERR_HUFF_CLEN_OVERFLOW` cannot occur below a total count of 9227465 |
| `CodeLengths.CountLengths` | mozilla/jpeg/jchuff.c:778-788 | fails exactly when a length exceeds 32; the counts are those of the lengths modulo 256 |
| `CodeLengths.AdjustOnce` | mozilla/jpeg/jchuff.c:801-812 | two words of length i and one of the donor's length, the longest one in use below i - 1, make room for one word of i - 1 bits and two one longer than the donor's; nothing shorter changes, and the Kraft sum and the number of words stay |
| `CodeLengths.LimitLengths` | mozilla/jpeg/jchuff.c:790-812 | the adjustment terminates with no word over 16 bits, the same number of words and Kraft sum 1, by steps from the greatest length in use that take the nearest donor; if no word was too long nothing changes |
| `CodeLengths.OneWay` | mozilla/jpeg/jchuff.c:801-812 | such steps can be taken in one way only, so that the counts they end with are determined |
| `CodeLengths.ShorterStay` | mozilla/jpeg/jchuff.c:801-812 | words shorter than every donor keep their lengths |
| `CodeLengths.SteepLimited` | mozilla/jpeg/jchuff.c:801-812 | 18 symbols with counts 1, 2, 4, ... and the pseudo-symbol end as one word each of 1 to 13 bits, two of 15 and four of 16 |
| `CodeLengths.DropPseudo` | mozilla/jpeg/jchuff.c:814-818 | one word of the greatest length in use is dropped |
| `CodeLengths.ListSymbols` | mozilla/jpeg/jchuff.c:820-834 | `huffval[]` lists the symbols with a code by initial length and value, its tail unchanged |
| `OptTable.GenOptimalTable` | mozilla/jpeg/jchuff.c:704-838 | the lengths found are optimal with Kraft sum 1; the table fails exactly when a length exceeds 32, otherwise it lists every counted symbol in a legal tree whose lengths are the optimal ones after the adjustment, less one longest word |
| `OptTableUse.OptimalTableAccepted` | mozilla/jpeg/jchuff.c:185-263 | both derived-table builders accept such a table; as a DC table exactly when only symbols 0..15 were counted |
| `OptTableUse.CountedSymbolsHaveCodes` | mozilla/jpeg/jchuff.c:820-834 | in the derived table exactly the counted symbols have codes, of the optimal length if none exceeds 16 bits |
| `OptTableUse.ShortWordsKeep` | mozilla/jpeg/jchuff.c:801-834 | a symbol whose optimal word is shorter than every donor of the adjustment gets that length in the table |
| `OptTableUse.OptimalTableCost` | mozilla/jpeg/jchuff.c:676-776 | with no word over 16 bits the table sends the counted symbols with no more bits than any prefix code that keeps a word free |
| `OptTableLimit.TooManySymbols` | mozilla/jpeg/jchuff.c:704-788 | 255 equally frequent symbols and the pseudo-symbol all get 8 bits: 256 words, of which the 8-bit counter keeps 0 |
| `HuffTable.LegalIffKraft` | mozilla/jpeg/jchuff.c:225-243 | the check made for every length amounts to a Kraft sum below 1 |
| `HuffTable.CanonicalOrder` | mozilla/jpeg/jchuff.c:225-243 | the first code is all zeros, every other one the code before plus one, with zero bits added if it is longer |
| `HuffTable.CodesPrefixFree` | mozilla/jpeg/jchuff.c:225-243 | of two code words of a legal table none begins the other |
| `HuffTable.CodesNotAllOnes` | mozilla/jpeg/jchuff.c:236-240 | every code word of a legal table has a zero bit |
| `HuffTable.OnesAreNoCode` | mozilla/jpeg/jdhuff.c:424-431 | 17 one bits are decoded as symbol 0 and used up, whatever the table |
| `DerivedTables.ExpandSizes` | mozilla/jpeg/jchuff.c:208-221 | fails exactly when there are more than 256 codes; otherwise lists the length of each |
| `DerivedTables.ExpandCodes` | mozilla/jpeg/jchuff.c:225-243 | fails exactly when the tree is not legal; otherwise lists the canonical codes |
| `DerivedTables.EnterSymbols` | mozilla/jpeg/jchuff.c:245-263 | fails exactly at a symbol out of range or listed twice; otherwise gives each listed symbol its code and every other one length 0 |
| `DerivedTables.MakeCDerived` | mozilla/jpeg/jchuff.c:177-264 | accepts exactly legal trees with symbols in range and none twice; each symbol gets its canonical code and length |
| `DerivedTables.FillSlowTables` | mozilla/jpeg/jdhuff.c:213-228 | `maxcode[]` and `valoffset[]` of figure F.15, with the sentinel at 17 |
| `DerivedTables.FillLookTables` | mozilla/jpeg/jdhuff.c:230-251 | the entry of every 8-bit string is the length and symbol of the code it begins with, or empty if there is none |
| `DerivedTables.MakeDDerived` | mozilla/jpeg/jdhuff.c:148-266 | accepts exactly legal trees, for DC with symbols up to 15; the tables decode the canonical codes |
| `DerivedTables.CodesAgree` | mozilla/jpeg/jchuff.c:225-263 | the bits the encoder's table has for a symbol, whatever follows, decode to that symbol, and no more bits are used |
| `BitWriter.BitWriter.EmitBits` | mozilla/jpeg/jchuff.c:300-336 | appends the low-order bits and writes each completed byte, a zero byte behind 0xFF; fails for size 0, suspends exactly when the bytes do not fit |
| `BitWriter.BitWriter.FlushBits` | mozilla/jpeg/jchuff.c:339-347 | fills the last byte up; fails exactly when the bytes do not fit |
| `Segments.FlushedBack` | mozilla/jpeg/jchuff.c:339-347 | a flushed segment is read back followed by fewer than 8 bits, all ones, up to a whole byte |
| `Segments.NoMarkerInside` | mozilla/jpeg/jchuff.c:321-328 | every byte 0xFF written is followed by a zero byte, so that a segment contains no marker |
| `Tokens.CodedExtend` | mozilla/jpeg/jdhuff.c:442-459 | the magnitude bits sent for a value, extended again, give the value |
| `Tokens.MagnitudeBits` | mozilla/jpeg/jchuff.c:363-391 | a value of n bits is sent as itself if positive, else as the value plus 2^n - 1 |
| `ByteStream.ReadUnit` | mozilla/jpeg/jdhuff.c:306-352 | a data byte, a stuffed 0xFF or a marker after fill bytes, or not enough data |
| `ByteStream.FillBytes` | mozilla/jpeg/jdhuff.c:322-346 | any number of bytes 0xFF may stand before a marker code or a stuffed zero |
| `BitReader.BitReader.FillBitBuffer` | mozilla/jpeg/jdhuff.c:291-389 | loads bytes without losing or inventing bits; at the end of a segment zero bits are made up exactly if too few are left; a failure changes nothing and means missing bytes |
| `BitReader.BitReader.CheckBitBuffer` | mozilla/jpeg/jdhuff.h:138-142 | afterwards the bits wanted are in the buffer, made-up ones included |
| `BitReader.BitReader.GetBits` | mozilla/jpeg/jdhuff.h:144-145 | the value of the next bits of the segment |
| `BitReader.BitReader.HuffDecode` | mozilla/jpeg/jdhuff.c:397-433 | the symbol whose canonical code comes next, wherever the search may start, 0 for a code of over 16 bits; exactly its bits are used |
| `BitReader.BitReader.DecodeSymbol` | mozilla/jpeg/jdhuff.h:176-196 | the lookahead gives the same symbol and uses the same bits as the bit-by-bit search |
| `SeqEncoder.CountBits` | mozilla/jpeg/jchuff.c:371-376 | the number of bits of a magnitude |
| `SeqEncoder.EncodeOneBlock` | mozilla/jpeg/jchuff.c:352-443 | sends exactly the symbols and magnitude bits of the block in zigzag order; fails exactly for a coefficient out of range or a symbol without code |
| `Blocks.ZigzagOrder` | mozilla/jpeg/jutils.c:53-64 | the zigzag order starts at the DC coefficient, visits every position once, and goes diagonal by diagonal in alternating directions |
| `SeqCodec.AcGap` | mozilla/jpeg/jchuff.c:397-435 | g zeros before a coefficient are sent as g / 16 symbols for 16 zeros and g % 16 in its own symbol, with its magnitude bits behind it |
| `SeqCodec.AcEnd` | mozilla/jpeg/jchuff.c:437-440 | zeros at the end of the block, however many, are one EOB |
| `SeqEncoder.SeqEncoder.EncodeMcu` | mozilla/jpeg/jchuff.c:475-525 | all of the MCU or nothing: done exactly when it can be coded and its bytes, restart marker included, fit; otherwise the state is unchanged |
| `McuCodec.PredictionIs` | mozilla/jpeg/jchuff.c:497-507 | the prediction of a component is the DC value of its last block, in this MCU or before |
| `McuCodec.RestartsWhere` | mozilla/jpeg/jchuff.c:489-522 | a restart comes before every MCU whose number is a positive multiple of the interval; markers are numbered 0 to 7 over and over, and predictions start anew |
| `SeqEncoder.SeqEncoder.FinishPass` | mozilla/jpeg/jchuff.c:532-552 | completes the bytes of the scan; without room it fails for good |
| `SeqEncoder.EncodeScan` | mozilla/jpeg/jchuff.c:475-525 | whatever room is handed over between suspensions, the bytes are those of the MCUs done; it stops early only when an MCU does not fit |
| `SeqGather.Gatherer.EncodeMcuGather` | mozilla/jpeg/jchuff.c:644-673 | counts exactly the symbols of the MCU, predictions reset at restarts as in the output pass; fails exactly for a coefficient out of range |
| `SeqGather.StatisticsAgree` | mozilla/jpeg/jchuff.c:352-443 | the output pass succeeds if and only if the statistics pass does and every symbol it went through has a code; both are then in the same state |
| `SeqOptimize.FinishPassGather` | mozilla/jpeg/jchuff.c:845-880 | every table of the scan is made from its counts, and made once; it can fail only for a code of over 32 bits |
| `SeqOptimize.OptimizedTablesSuffice` | mozilla/jpeg/jchuff.c:845-880 | with tables made from the statistics of the same MCUs every MCU can be coded |
| `SeqOptimize.GatheredUsable` | mozilla/jpeg/jchuff.c:571-636 | after any pass over at least one MCU the counts of every component's tables are fit for `jpeg_gen_optimal_table` |
| `Markers.NextMarker` | mozilla/jpeg/jdmarker.c:871-915 | finds the next marker; what it has skipped when it is suspended need not be seen again |
| `Markers.ResyncToRestart` | mozilla/jpeg/jdmarker.c:1189-1232 | discards, scans forward or leaves the marker by its distance from the one wanted; a suspended search can be repeated |
| `Markers.RestartRecovery` | mozilla/jpeg/jdmarker.c:1205-1231 | a marker one or two restarts ahead is left, one of the last two restarts leads to the next marker, one further away is dropped; other markers are left, and bytes that are no marker are passed over |
| `Markers.LostRestarts` | mozilla/jpeg/jdmarker.c:1189-1232 | if one or two restart markers are lost, the one found stays unread over the missing restarts and is swallowed at exactly its own |
| `Markers.RepeatedRestart` | mozilla/jpeg/jdmarker.c:1189-1232 | a marker of one of the last two restarts is passed over, and the segment behind the marker wanted is kept |
| `Markers.ReadRestartMarker` | mozilla/jpeg/jdmarker.c:1110-1137 | ends at the place the stream determines, exactly when that place has arrived; otherwise repeating it leads there |
| `SeqDecoder.SeqDecoder.ProcessRestart` | mozilla/jpeg/jdhuff.c:467-498 | the state after a restart depends on the stream only; a suspended call can be repeated, and made-up data ends when a new segment begins |
| `SeqDecoder.DecodeBlock` | mozilla/jpeg/jdhuff.c:545-613 | the block and prediction that the bits denote, unwanted coefficients left zero |
| `McuReading.SkipSameBits` | mozilla/jpeg/jdhuff.c:588-611 | skipped coefficients use up the same bits as wanted ones |
| `SeqDecoder.SeqDecoder.DecodeMcu` | mozilla/jpeg/jdhuff.c:516-627 | the MCU is complete, or bit state, predictions and position allow the same MCU to be tried again; it never has to be suspended once its bytes have arrived, and is so only when they have not |
| `CoefInput.CoefController.ConsumeData` | mozilla/jpeg/jdcoefct.c:243-303 | the resume counters: a suspended call goes on with the MCU it has stopped at |
| `CoefInput.ReadScan` | mozilla/jpeg/jdcoefct.c:243-303 | in whatever portions the bytes arrive, valid or corrupt, the arrays get what the whole stream contains; reading stays incomplete only when all that has been sent does not suffice for the next MCU |
| `SeqRoundTrip.ScanRoundTrip` | mozilla/jpeg/jdhuff.c:516-627 | the bytes of a scan, wherever they stand and whatever marker follows, decode to the blocks encoded, restarts included, and without suspension |
| `ProgEmitter.PutSymbol` | mozilla/jpeg/jcphuff.c:280-289 | counts the symbol or sends its code |
| `ProgEmitter.EmitBufferedBits` | mozilla/jpeg/jcphuff.c:296-308 | sends the bits in order, nothing when gathering |
| `ProgEncoder.EmitEobrun` | mozilla/jpeg/jcphuff.c:315-339 | sends the run's symbol, its low-order bits and the held correction bits |
| `ProgEncoder.EncodeDcFirst` | mozilla/jpeg/jcphuff.c:376-455 | the differences of the shifted DC values; fails exactly for one out of range or without a code |
| `ProgScan.DcTransform` | mozilla/jpeg/jcphuff.c:402-405 | the point transform of a DC value drops low-order bits of the two's complement |
| `ProgEncoder.EncodeAcFirst` | mozilla/jpeg/jcphuff.c:463-561 | sends the truncated coefficients of the band, with the zeros before them; the zeros at its end are held as a run |
| `ProgCodec.PointTransform` | mozilla/jpeg/jcphuff.c:490-508 | the point transform of an AC coefficient drops low-order bits of the magnitude and keeps the sign |
| `ProgCodec.FirstGap` | mozilla/jpeg/jcphuff.c:486-539 | g zeros before a coefficient are sent as g / 16 symbols for 16 zeros and g % 16 in its own symbol |
| `ProgCodec.FirstEnd` | mozilla/jpeg/jcphuff.c:541-545 | for zeros at the end of the band no symbol is sent |
| `ProgBounds.HeldBack` | mozilla/jpeg/jcphuff.c:541-545 | a block without symbols sends nothing as long as the run stays below 0x7FFF and at most 937 correction bits are held |
| `ProgBounds.OneRun` | mozilla/jpeg/jcphuff.c:541-545 | up to 0x7FFF blocks of zeros from the start of a segment to its end are sent as a single run |
| `ProgBounds.RunSymbol` | mozilla/jpeg/jcphuff.c:315-339 | the symbol of a run is 16 times the number of its bits after the first, and these bits follow |
| `ProgEncoder.EncodeDcRefine` | mozilla/jpeg/jcphuff.c:570-610 | one bit of every DC value |
| `ProgEncoder.EncodeAcRefine` | mozilla/jpeg/jcphuff.c:617-738 | new coefficients, correction bits and zero runs of the band; no run of over 15 in a symbol for a new coefficient |
| `ProgRefine.NothingBehind` | mozilla/jpeg/jcphuff.c:641-649 | behind the last new coefficient of the band no symbol is sent: zeros and correction bits are left to an EOB |
| `ProgRefine.SixteenZeros` | mozilla/jpeg/jcphuff.c:672-683 | with more than 15 zeros counted before a known coefficient, 16 of them are sent, the correction bits behind the symbol |
| `ProgRefine.NewCoefficient` | mozilla/jpeg/jcphuff.c:690-711 | the symbol of a new coefficient takes the zeros left; its sign and the correction bits follow |
| `ProgBands.BandStepValid` | mozilla/jpeg/jcphuff.c:617-738 | EOBRUN stays below 0x7FFF, no bits are held without a run, and the correction buffer of 1000 bits is never exceeded |
| `ProgBounds.BoundAttained` | mozilla/jpeg/jcphuff.c:617-738 | 15 blocks leave 937 held bits, and the next one fills the buffer |
| `ProgPass.PhuffEncoder.EmitRestart` | mozilla/jpeg/jcphuff.c:346-368 | held runs are sent before the marker, and the state starts anew |
| `ProgStream.PRestartsWhere` | mozilla/jpeg/jcphuff.c:346-368 | a restart comes before every MCU whose number is a positive multiple of the interval, with the marker's number modulo 8 |
| `ProgPass.PhuffEncoder.EncodeMcu` | mozilla/jpeg/jcphuff.c:376-738 | done exactly when the MCU can be coded and fits; then bytes and held state, or the counts, are those of the MCUs so far |
| `ProgPass.PhuffEncoder.FinishPass` | mozilla/jpeg/jcphuff.c:745-759 | the bytes of the whole scan, the last run included |
| `ProgPass.PassStatisticsAgree` | mozilla/jpeg/jcphuff.c:280-339 | the output pass succeeds if and only if the coefficients are in range and everything the statistics pass went through has a code |
| `ProgOptimize.FinishPassGather` | mozilla/jpeg/jcphuff.c:766-806 | the last run is counted too, and every table the scan needs is made once from its counts |
| `ProgOptimize.PassTablesSuffice` | mozilla/jpeg/jcphuff.c:766-806 | with tables made from the statistics of the same MCUs the whole scan can be coded |
| `ProgOptimize.PassUsable` | mozilla/jpeg/jcphuff.c:280-339 | after any pass over at least one MCU the counts are fit for `jpeg_gen_optimal_table` |
| `ProgInPlace.DecodeAcFirst` | mozilla/jpeg/jdphuff.c:356-432 | the band as the bits denote it |
| `ProgInPlace.CorrectRemaining` | mozilla/jpeg/jdphuff.c:593-615 | one correction bit for every known coefficient left in the band, in place |
| `ProgInPlace.RefineBody` | mozilla/jpeg/jdphuff.c:490-633 | the refined band; when suspended, a list of the new coefficients written |
| `ProgInPlace.Undo` | mozilla/jpeg/jdphuff.c:627-632 | taking the new coefficients out again gives a block from which the same band will be decoded |
| `ProgInPlace.CorrectAgain` | mozilla/jpeg/jdphuff.c:569-576 | repeating a correction changes nothing |
| `ProgDecoder.PhuffDecoder.ProcessRestart` | mozilla/jpeg/jdphuff.c:227-260 | as in the sequential decoder, and no run is left |
| `ProgDecoder.PhuffDecoder.DecodeMcu` | mozilla/jpeg/jdphuff.c:285-633 | for each of the four kinds of scan: complete, or in a state from which the same MCU will be decoded; suspended only when its bytes have not arrived |
| `ProgInput.ReadScan` | mozilla/jpeg/jdcoefct.c:243-303 | the same for a progressive scan: in whatever portions the bytes arrive, the arrays get what the stream makes of their old content |
| `ProgBands.BandBack` | mozilla/jpeg/jdphuff.c:356-633 | one block of a run of bands is decoded to the encoder's truncated coefficients, and the decoder's count stays in step with what the encoder holds |
| `ProgRoundTrip.ProgScanRoundTrip` | mozilla/jpeg/jcphuff.c:315-738 | the bytes of a progressive scan take every MCU from what earlier scans have made of it to what this one is to make of it, across runs and restarts, without suspension |
| `ScriptRoundTrip.ScriptKnows` | mozilla/jpeg/jcphuff.c:315-738 | after any number of scans every coefficient is known down to the bit the script has sent |
| `ScriptRoundTrip.ScriptBack` | mozilla/jpeg/jcphuff.c:315-738 | the scans of an accepted script that sends every bit rebuild every coefficient of every real block exactly |
| `Scripts.ValidateScript` | mozilla/jpeg/jcmaster.c:129-261 | accepted if and only if the independent rules for sequential or progressive scripts hold |
| `Scripts.AcceptedExactly` | mozilla/jpeg/jcmaster.c:129-261 | a progressive script meets these rules if and only if scans are well formed, the scans of every coefficient form a descending chain of single bits with DC first, and every component has a DC scan |
| `Scripts.Chain` | mozilla/jpeg/jcmaster.c:180-261 | in an accepted progressive script a coefficient's scans form an unbroken descending chain, DC before AC |
| `SimpleProgression.FillAScan` | mozilla/jpeg/jcparam.c:474-487 | one entry is written, and `scanptr` moves behind it |
| `SimpleProgression.FillScans` | mozilla/jpeg/jcparam.c:489-506 | one entry for each component |
| `SimpleProgression.FillDcScans` | mozilla/jpeg/jcparam.c:508-528 | one interleaved entry, or one for each of more than four components |
| `SimpleProgression.Simple` | mozilla/jpeg/jcparam.c:536-608 | exactly `num_scans` entries are written, for any component count and any earlier script space; the script is accepted and sends every bit |
| `SimpleProgression.AllPurposeOrder` | mozilla/jpeg/jcparam.c:597-606 | stage by stage, and within a stage component by component |
| `SimpleProgression.YccOrder` | mozilla/jpeg/jcparam.c:578-595 | the ten scans of the YCbCr script, each in its place |
| `PassMachine.Master.constructor` | mozilla/jpeg/jcmaster.c:542-590 | a progressive script forces optimization; the number of passes |
| `PassMachine.Master.PrepareForPass` | mozilla/jpeg/jcmaster.c:400-475 | what happens next continues the one order of events; a statistics pass is skipped only for a DC refinement, and both counters skip it; `is_last_pass` exactly in the last scan's output pass |
| `PassMachine.Master.PassStartup` | mozilla/jpeg/jcmaster.c:488-495 | the headers held back are written once |
| `PassMachine.Master.FinishPass` | mozilla/jpeg/jcmaster.c:502-535 | the next pass is the right one, and `pass_number` agrees with it |
| `PassMachine.WholeInOrder` | mozilla/jpeg/jcmaster.c:400-475 | in that order of events every scan is output once and in order, after one frame header; when tables are optimized its statistics pass comes directly before, unless the scan is a DC refinement |
| `PassTables.TablesUnneeded` | mozilla/jpeg/jcmaster.c:436-446 | the scans without a statistics pass are exactly those no MCU of which sends a Huffman symbol |
| `PassMachine.Compress` | mozilla/jpeg/jcapimin.c:146-181 | the finishing loop terminates, with everything done in that order |
| `RowContext.MakeFunnyPointers` | mozilla/jpeg/jdmainct.c:194-234 | the two lists permute the workspace, the first row standing above the image |
| `RowContext.SetWraparoundPointers` | mozilla/jpeg/jdmainct.c:237-262 | both lists continue at their ends with the rows of the other iMCU row |
| `RowContext.SetBottomPointers` | mozilla/jpeg/jdmainct.c:265-299 | the last real row is repeated, and the row groups left are counted |
| `RowContext.MainController.ProcessData` | mozilla/jpeg/jdmainct.c:384-447 | any pattern of suspensions: row groups are handed out in order with their context, and nothing needed is overwritten |
| `RowContext.ContextRight` | mozilla/jpeg/jdmainct.c:384-447 | a window is the true one if and only if the row group is not the cramped one; the next row below is true even then |
| `RowContext.MainController.ImageSeen` | mozilla/jpeg/jdmainct.c:384-447 | when all is done every row group has been handed out once and in order, with its full context but for the cramped one |
| `RowContext.MainController.AllExact` | mozilla/jpeg/jdmainct.c:265-299 | all windows of an image are true if and only if its last iMCU row is its only one or has at least a row group of real rows |
| `RowContext.MainController.SeventeenRows` | mozilla/jpeg/jdmainct.c:265-299 | 17 rows with two to a row group: the window of row group 7 ends with a padding row |
| `RowContext.OneCountForAll` | mozilla/jpeg/jdmainct.c:285-290 | the row groups left are as many for every component, so that they may be taken from the first |
| `PrepContext.CreateContextBuffer` | mozilla/jpeg/jcprepct.c:266-305 | five row groups of positions over a ring of three |
| `PrepContext.PrepController.PreProcessContext` | mozilla/jpeg/jcprepct.c:194-259 | however the rows are portioned, every row group is made from the true rows of three, first and last rows repeated at the edges; rows and row groups are accounted for |
| `PrepSimple.SimpleController.PadOutput` | mozilla/jpeg/jcprepct.c:169-182 | below the image the last row made is repeated |
| `PrepSimple.SimpleController.PreProcessData` | mozilla/jpeg/jcprepct.c:127-185 | however the rows are portioned, every row group is made from its true rows, the last one repeated; at the bottom the output is filled at once |
| `Preprocessing.Preprocessor.PreProcessData` | mozilla/jpeg/jcprepct.c:328-353 | what the main controller may expect of either controller |
| `CompressMain.MainController.ProcessData` | mozilla/jpeg/jcmainct.c:112-158 | the compressor gets the iMCU rows of the padded component in order; one row is held back exactly while it is suspended |
| `CompressMain.MainController.WriteScanlines` | mozilla/jpeg/jcapistd.c:76-111 | with either preprocessor all rows count as written exactly when every iMCU row has been compressed; fewer than offered are taken only if the compressor is suspended, after as many iMCU rows as it took |
| `CoefBlocks.FrameValid` | mozilla/jpeg/jcmaster.c:93-124 | the dimensions computed fill whole iMCU rows and interleaved MCUs, but for dummy blocks in the last ones |
| `CoefOutput.BuildMcu` | mozilla/jpeg/jccoefct.c:168-204 | the MCU's blocks, dummy blocks at the right and bottom edge with the DC value of the block before |
| `CoefLaws.McuContent` | mozilla/jpeg/jccoefct.c:168-204 | every block of an MCU is the image's block at its place or, outside the image, a dummy with the DC value of the block before it and no other coefficient |
| `CoefOutput.FillComp` | mozilla/jpeg/jccoefct.c:258-324 | the component's rows of an iMCU row in its array, dummy blocks included; the rows above stay |
| `CoefOutput.FetchMcu` | mozilla/jpeg/jccoefct.c:363-377 | the MCU's blocks from the arrays |
| `CoefOutput.CoefController.CompressData` | mozilla/jpeg/jccoefct.c:142-218 | an iMCU row is handed to the entropy coder; a suspended call goes on with the very MCU refused |
| `CoefOutput.CoefController.CompressFirstPass` | mozilla/jpeg/jccoefct.c:244-327 | the same from the arrays just filled; repeating a suspended call fills them again with the same blocks |
| `CoefOutput.CoefController.CompressOutput` | mozilla/jpeg/jccoefct.c:340-395 | the same from arrays filled before |
| `CoefOutput.SameBlocks` | mozilla/jpeg/jccoefct.c:142-395 | one pass over the image and passes over the arrays have handed over the same MCUs: those of the image |
| `CoefLaws.ImageOrder` | mozilla/jpeg/jccoefct.c:142-218 | these MCUs go from left to right and from top to bottom |
| `EntropyCoding.EntropyCoder.EncodeMcu` | mozilla/jpeg/jchuff.c:105-168 | the installed coder, for bits or statistics, takes the MCU or nothing, and fails only if the MCUs so far cannot be coded |
| `ScanOutput.WritePass` | mozilla/jpeg/jccoefct.c:142-395 | an output pass over an image, in whatever portions room is handed over, leaves the bytes of all its MCUs; it ends early only when an MCU is refused, and fails only if one cannot be coded or the last bits find no room |
| `ScanOutput.GatherPass` | mozilla/jpeg/jccoefct.c:244-327 | a statistics pass over an image never has to be suspended, fills the arrays, and fails only if a coefficient is out of range |
| `ScanOutput.MakeTables` | mozilla/jpeg/jchuff.c:118-154 | the derived tables of the scan's components, or an error exactly if one is not accepted |
| `ScanOutput.CompressOptimized` | mozilla/jpeg/jcmaster.c:400-475 | statistics pass, tables and output pass together: no code is ever missing and no table refused; what is written completes the bytes of the scan, and the decoder's tables match |
| `ScanOutput.ImageBack` | mozilla/jpeg/jdhuff.c:516-627 | the bytes so written decode to the blocks of the image |

## Findings

- **Context of a last iMCU row with few rows.** When the last iMCU row of an image
  has fewer real rows than a row group, the row group before it is handed to the
  postprocessor before `set_bottom_pointers` (mozilla/jpeg/jdmainct.c:265-299) has
  repeated the last real row: below it the postprocessor sees that row and then padding rows.
  `RowContext.ContextRight` and `RowContext.MainController.AllExact` give the exact
  condition, `RowContext.MainController.SeventeenRows` an image of 17 rows. The row
  directly below is always the true one (`RowContext.ContextRight`), which is all
  that triangle-filter upsampling with two rows to a row group looks at.
- **More than 254 symbols.** The counts of `bits[]` have 8 bits
  (mozilla/jpeg/jchuff.c:708). 255 equally frequent symbols and the pseudo-symbol all
  get words of 8 bits, and the count of these 256 words is kept as 0
  (`OptTableLimit.TooManySymbols`). The statistics of a scan cannot lead there:
  `SeqOptimize.GatheredUsable` and `ProgOptimize.PassUsable` show that they never
  contain more than 251 symbols.
- **A row held back.** A call of `jpeg_write_scanlines` without rows can report one
  row as written, the one held back while the compressor was suspended
  (`CompressMain.MainController.WriteScanlines`).
- **Progressive decoding and restarts.** A DC refinement scan is decoded even when no
  data is left; made-up zero bits change nothing (`ProgDecoder.PhuffDecoder.DecodeMcuBlocks`).

## Left out

- GenOptimalTable: assumes at least one and at most 254 counted symbols, and a total of at most 1000000000, beyond which the search loops overlook a branch; the counts themselves are unbounded, not `long`.
- EncodeMcuGather: a failed call leaves unspecified what has been counted, as the error exit ends the compression.
- WritePass: the entropy coder is the sequential one; a progressive scan is written by `ProgPass.PhuffEncoder` from its MCUs, not through the coefficient controller, and which blocks make up the MCUs of a scan of some components is a parameter of `ScriptRoundTrip` (`Layout`).
- WriteScanlines: how many iMCU rows the compressor completes before it is suspended is a parameter; the forward DCT, which would join it to `ScanOutput.WritePass`, is not modelled.
- NextMarker: what `discarded_bytes` counts is not specified.
- PhuffEncoder: a progressive scan is written to a destination that takes everything, or fails with `JERR_CANT_SUSPEND` as the source does; the scan is not taken up again.
- MainController: the rows of one component at a time; `RowContext.OneCountForAll` covers what the components share. Rows below the image are one label, whatever the decoder leaves there.
- DecodeMcu: the source of compressed data reports missing bytes as not yet arrived; a source that never suspends is one whose bytes have all arrived, an EOI marker included.
- `decompress_onepass` and `decompress_smooth_data` (mozilla/jpeg/jdcoefct.c:146-220, 460-666), and the output counters of `decompress_data`: the same resume counters as `consume_data`, and the inverse DCT.
- The controllers without context rows of the decoder (mozilla/jpeg/jdmainct.c:344-376), and full-image buffers of the main controllers: copying without any rearrangement.
- Marker reading and writing beyond restart markers, DCT and quantization, colour conversion, upsampling and downsampling: per-field or per-sample computations. A downsampled row is named after the rows it is made from.
- Memory managers, virtual array swapping, stdio sources and destinations, progress monitors, traces and the command-line programs.
- Arithmetic coding and 12-bit samples: not compiled in.
