# EM410x / EM4x50 codec of the Proxmark3 client (`client/cmdlfem4x.c`)

A Dafny model of the bit-level logic behind the `lf em4x` commands. All code
is pure functions over sequences, with the loops written as recursion.

- **Threshold scan** (module `Levels`). The reference levels `high` and `low`
  are taken from the sample buffer and returned as a `Thresholds` record.
- **Manchester extractor** (module `Manchester`). This is the first half of
  `CmdEM410xRead`. It produces one running bit per clock-sized cell. The bit
  flips in every cell that did not touch both levels after its leading run of
  level samples.
- **EM410x frame scanner** (module `Em410xScan`). This is the second half of
  `CmdEM410xRead`. The model is a state record (cursor, header count, row
  count, column parity, id digits) and a step function with a decreasing
  measure.
  - Failures resynchronise by the source's exact rewinds.
  - A failed pass is retried once on the complemented stream.
  - The counters carry over into the retry, as in the source. A rewind in the
    retry can send the cursor below 0; that is reported as `OutOfRange`. A
    header count carried into the retry can make it miss a complemented frame
    at the start of the stream (see below).
- **EM410x encoder** (module `Em410xSim`). This is `CmdEM410xSim`: ten nibbles
  become the 64 symbol values of a frame. The round trip goes through the
  scanner at bit level.
- **EM4x50 reader, up to the first block** (module `Em4x50`). This is
  `CmdEM4x50Read`:
  - the samples become low-to-low pulse widths;
  - the first double Listen Window is located with inclusive width bands;
  - the data-start sample is computed;
  - an end marker is searched for.
- **`ConfirmEm410xTagParity`** (module `ParityConfirm`). A separate parity
  check over a `'0'`/`'1'` string. It resets per pass, slides on a bad row,
  and has no header search.
- **`CmdEM410xWrite`** (module `Em410xWrite`). Argument checks in the source's
  order, and the packing of the three command arguments.

Module `Bits` holds the shared bit and nibble helpers: row parity, natural and
reversed readings, column parity. Module `Optional` holds `Option`.

What the scanner's state means:
- `parity[]` is the xor of every row accepted since the start of the read.
  Rows of abandoned attempts stay in it, because neither a rewind nor the
  retry clears it. The model keeps the list of accepted rows in a field
  `accepted` that the source does not have; it only serves to state this
  (`Tracks`: the register is `ColumnParity(accepted)`). A frame is therefore
  accepted only when its trailer matches the parity of the whole history.
  That is the digits' own column parity when no earlier attempt accepted a
  row.
- The retry keeps `header`, `rows` and the id digits and restarts only the
  cursor. A frame it accepts may begin in pass 1: its header and first rows
  then lie in the stream pass 1 scanned and the rest in the complemented
  stream. The soundness lemmas state this with the spliced stream
  `Spliced(bits, at)`: the first `at` bits of the stream, where pass 1 stopped,
  followed by the complemented stream. The retry's cursor `i` corresponds to
  `at + i` there.
- Because the retry also keeps `header`, a header count that pass 1 left
  pending can make the retry miss a complemented frame at the start of the
  stream. With `h` ones pending, the retry completes its header after only
  `9 - h` of the frame's nine ones, and it reads its rows out of step with the
  frame. The model keeps this behaviour. `RetryHeaderMisaligned` states it,
  `CarriedHeaderUnderflows` shows that with seven or eight ones pending the
  read ends out of range, and `CarriedHeaderLosesFrame` exhibits an encoded
  frame that is found while its complement is not.

Where the code and its comments differ, the model follows the code.
- `parity[]` in `CmdEM410xRead` is zeroed only once, before the first pass. It
  is not zeroed after a rewind or before the retry.
- The retry restarts only the cursor.

## Model

| member | source | states |
|---|---|---|
| `Levels.ScanLevels` | client/cmdlfem4x.c:47-56 | `low <= 0 <= high`; every sample lies in `[low, high]`; each level is 0 or one of the samples |
| `Levels.FlatLevels` | client/cmdlfem4x.c:47-56 | the two levels coincide exactly when every sample is 0 |
| `Manchester.TransitionIffMissedLevel` | client/cmdlfem4x.c:74-93 | the per-cell loop with its `first` flag and early exit reports a transition iff, after the first sample at neither level, not both a `high` sample and a separate `low` sample occur |
| `Manchester.ScanAfterLead` | client/cmdlfem4x.c:74-90 | once past the leading run, the loop ends with both flags set iff each level occurs in the rest of the cell |
| `Manchester.EqualLevelsAlwaysToggle` | client/cmdlfem4x.c:76-93 | when `high == low` no sample can set the low flag, so every cell toggles |
| `Manchester.Demodulate` | client/cmdlfem4x.c:66-97 | exactly `len / clock` bits; bit 0 is cell 0's toggle; bit k is bit k-1 xor cell k's toggle |
| `Manchester.DemodulatedBitIsToggleParity` | client/cmdlfem4x.c:92-96 | bit k is the parity of the number of toggling cells up to and including k |
| `Bits.NibbleBits` | client/cmdlfem4x.c:235-236 | the four bits peeled off a hex digit read back naturally as that digit |
| `Bits.NibbleBitsOfNatural` | client/cmdlfem4x.c:107-110 | splitting the natural reading of a row gives back the row's four data bits |
| `Bits.UniqueIsReversedNatural` | client/cmdlfem4x.c:110-111 | the second id string's digit is the bit reversal of the first's |
| `Bits.ReverseNibbleInvolutive` | client/cmdlfem4x.c:110-111 | reversing a digit's bits twice gives the digit back |
| `Bits.ColumnParity` | client/cmdlfem4x.c:248-251 | the xor-accumulated parity of column c is the number of rows with bit c set, mod 2 |
| `Bits.ReverseAll` | client/cmdlfem4x.c:111 | the unique id is the digit-wise bit reversal of the natural id |
| `Bits.ComplementIsXorOnes` | client/cmdlfem4x.c:183-184 | the retry's flip `BitStream[i] ^= 1` is the stream xored with a run of ones as long as the stream |
| `Bits.ComplementInvolutive` | client/cmdlfem4x.c:183-184 | flipping twice restores the stream |
| `Bits.ColumnParityAddRow` | client/cmdlfem4x.c:114-118 | xoring a row into the running parity equals recomputing the column parity of the longer id |
| `Em410xScan.Step` | client/cmdlfem4x.c:101-175 | one iteration keeps the counters well formed; it strictly advances the measure (header start, then cursor); it changes the column parity only on a step that accepts a row (the row count goes up by one); it accepts only when 10 rows are held and the five bits at the cursor are the running parity and 0 |
| `Em410xScan.RunPass` | client/cmdlfem4x.c:99-175 | a pass ends in a hit holding 10 rows, in exhaustion at `i >= bit2idx - 5`, or in a fault at a negative cursor |
| `Em410xScan.StepTracks` | client/cmdlfem4x.c:104-174 | each iteration keeps the column parity register equal to the column parity of every row accepted so far, abandoned attempts included, and the current digits the last rows of that history |
| `Em410xScan.RunPassTracks` | client/cmdlfem4x.c:99-175 | a whole pass keeps that invariant: at a hit or at the end of the stream the parity register is the xor of every accepted row, since lines 132 and 157 never reset it |
| `Em410xScan.PassFromSoundStartInBounds` | client/cmdlfem4x.c:101-175 | from counters whose header start is not negative (the first pass) the cursor never goes below 0 |
| `Em410xScan.DecodeBits` | client/cmdlfem4x.c:177-186 | a found id has 10 digits and the unique id is its reversal; `OutOfRange` only arises in the retry pass; a first-pass hit is reported as found; what a found id rests on is stated by `FoundIsFrame` |
| `Em410xScan.Report` | client/cmdlfem4x.c:142-151 | at a hit both id strings are reported: the natural digits, and the unique digits as their bit reversals |
| `Em410xScan.Em410xRead` | client/cmdlfem4x.c:39-186 | thresholds, demodulation and the frame scan compose; a found id has 10 digits with the unique id its reversal, and its digits are the rows of a frame in the demodulated stream or in the stream the retry pass reads |
| `Em410xScan.StepConsistent` | client/cmdlfem4x.c:104-174 | the header ones and the accepted rows the counters claim are really in the stream, and each step keeps it so |
| `Em410xScan.PassHitIsFrame` | client/cmdlfem4x.c:101-151 | a hit is a genuine frame: nine ones, ten rows passing the row check and read as the digits, then the running column parity and a stop 0 |
| `Em410xScan.FirstPassFoundIsFrame` | client/cmdlfem4x.c:101-151 | scan soundness of pass 1: the hit is reported; a frame with those digits starts at the header the hit belongs to; its trailer equals the column parity of every row accepted so far, whose last ten are the digits; when no earlier attempt accepted a row, that is the digits' own column parity |
| `Em410xScan.RunPassShifted` | client/cmdlfem4x.c:99-175 | a pass that hits over a stream is, cursor for cursor, a pass that hits over any prefix followed by that stream, started that far on |
| `Em410xScan.RetryFoundIsFrame` | client/cmdlfem4x.c:99-186 | scan soundness of the retry: the hit is reported; its frame lies in the part of the stream pass 1 scanned followed by the complemented stream, starting at the hit's header shifted by where pass 1 stopped; its trailer is the column parity of every row accepted in either pass |
| `Em410xScan.FreshRetryFoundIsFrame` | client/cmdlfem4x.c:177-186 | when pass 1 ends holding no header ones and no rows, a retry hit is a frame of the complemented stream alone |
| `Em410xScan.FoundIsFrame` | client/cmdlfem4x.c:99-186 | every found id is the digits of a frame in the stream or in the spliced stream the retry reads |
| `Em410xScan.RetryTrailerAtStart` | client/cmdlfem4x.c:136-186 | if pass 1 ends holding ten rows and the stream opens with five ones, the retry reports the carried id exactly when the carried column parity is 0, and otherwise the rewind by 59 makes the read fail |
| `Em410xScan.RowFailureResumesAfterHeader` | client/cmdlfem4x.c:124-133 | after a row failure the loop resumes 6 bits after the start of the header; header and rows are cleared; parity is kept |
| `Em410xScan.TrailerFailureResumesAfterHeader` | client/cmdlfem4x.c:154-161 | after a trailer failure the loop resumes 1 bit after the start of the header; header and rows are cleared; parity is kept |
| `Em410xScan.RetryRowFailureUnderflows` | client/cmdlfem4x.c:99-186 | if pass 1 ends mid-frame and the complemented stream fails the row check at 0, the carried rewind makes the cursor negative |
| `Em410xScan.RetryPassCanUnderflow` | client/cmdlfem4x.c:99-186 | a concrete 16-bit stream (0, nine 1s, five 0s, any bit) ends in `OutOfRange` |
| `Em410xScan.RetryHeaderMisaligned` | client/cmdlfem4x.c:164-186 | when pass 1 ends with `0 < h < 9` header ones and no rows and the complemented stream opens with nine ones, the retry runs as if the header had been completed at cursor `9 - h`, not 9 |
| `Em410xScan.CarriedHeaderUnderflows` | client/cmdlfem4x.c:99-186 | with seven or eight header ones carried into the retry over a complemented stream that opens with nine ones, the first row window lies inside those ones, fails its check, and the rewind ends the read out of range |
| `Em410xScan.ZeroHop` | client/cmdlfem4x.c:164-174 | outside a frame, a 0 that lies fewer than `9 - header` bits ahead is reached without the header completing and resets the count |
| `Em410xScan.OnesRun` | client/cmdlfem4x.c:164-174 | outside a frame, a run of ones too short to complete the header only raises the count |
| `Em410xScan.OnesAdvanceHeader` | client/cmdlfem4x.c:164-174 | a run of ones completes a pending header without touching anything else |
| `Em410xScan.HeaderAtStart` | client/cmdlfem4x.c:164-174 | nine ones at the start of the stream are taken as the header |
| `Em410xSim.Encode` | client/cmdlfem4x.c:220-261 | 64 symbols: nine 1s; each digit's bits MSB first, then their xor; the four column xors; a stop 0 |
| `Em410xSim.EncodedRowWindow` | client/cmdlfem4x.c:231-245 | each encoded row window carries its digit and passes the row check |
| `Em410xSim.EncodedRowsAccepted` | client/cmdlfem4x.c:104-122 | the scanner accepts the ten encoded rows in order |
| `Em410xSim.EncodedHeaderAndRows` | client/cmdlfem4x.c:101-134 | from the start the scanner reaches the trailer of an encoded frame holding exactly its digits and column parity |
| `Em410xSim.EncodedTrailer` | client/cmdlfem4x.c:136-152 | the encoded trailer matches the column parity the scanner accumulated |
| `Em410xSim.EncodeThenDecode` | client/cmdlfem4x.c:220-261 | round trip: the encoded frame plus at least one more bit is found by the first pass with the encoded digits and their reversals |
| `Em410xSim.EncodedFrameAloneMissedByFirstPass` | client/cmdlfem4x.c:100-101 | without a trailing bit the loop bound `i < bit2idx - 5` ends the first pass before the trailer check |
| `Em410xSim.EncodedFrameAloneDecode` | client/cmdlfem4x.c:99-186 | an encoded frame with nothing after it is found by the retry when its column parity is 0 and is otherwise a failed read, never a miss |
| `Em410xSim.CarriedHeaderLosesFrame` | client/cmdlfem4x.c:99-186 | the encoded frame of ten 6s followed by five more bits decodes to its digits, but its complement ends out of range: pass 1 leaves seven header ones pending and the retry loses the frame at index 0 |
| `Em4x50.SkipAbove` | client/cmdlfem4x.c:348-349 | the cursor stops at the first in-bounds sample at or below `low`, having passed only samples above it |
| `Em4x50.SkipBelow` | client/cmdlfem4x.c:351-352 | the cursor stops at the first in-bounds sample at or above `high`, having passed only samples below it |
| `Em4x50.NextPulse` | client/cmdlfem4x.c:347-353 | the pulse starts at the first sample at or below `low` from the cursor, rises at the first sample at or above `high` after that, and ends at the first sample at or below `low` after the rise |
| `Em4x50.PulseUnique` | client/cmdlfem4x.c:347-353 | the start and end of a pulse are determined by the samples and the cursor |
| `Em4x50.PulseWidths` | client/cmdlfem4x.c:343-359 | at most the table size widths; each is at least 0; together they sum to at most the samples left; at least one width while samples and room remain; which widths the table holds is stated by `PulseWidthsMeasurePulses` |
| `Em4x50.PulseWidthsMeasurePulses` | client/cmdlfem4x.c:343-359 | each stored width is the length of a low-to-low pulse, searched for where the previous one ended; a width is stored only for a round that began before `GraphTraceLen`; the table stops when the cursor reaches `GraphTraceLen` or the table is full |
| `Em4x50.PulseChainUnique` | client/cmdlfem4x.c:343-359 | the samples, the starting cursor and the table size determine the widths: two pulse chains that obey the stopping rule are equal |
| `Em4x50.FlatBufferFillsTable` | client/cmdlfem4x.c:343-359 | on a flat buffer the cursor never moves and the loop ends only when the table is full of zero widths |
| `Em4x50.FindListenWindows` | client/cmdlfem4x.c:364-375 | the first index below `j - 4` whose four widths fall in the bands [190,194], [126,130], [190,194], [126,130]; none iff no index qualifies |
| `Em4x50.DataStart` | client/cmdlfem4x.c:376-382 | the sum of widths `0 .. m + 2` (the first Listen Window and the 192-sample pulse of the second, but not the second window's 128-sample pulse), moved past samples above `low` to the first one at or below it (or the buffer end), plus 8 |
| `Em4x50.Em4x50Read` | client/cmdlfem4x.c:333-413 | no data iff no marker; otherwise the first marker is reported, with the data start and `complete` iff another marker starts at or after the first block |
| `Em4x50.EndMarkerAfterStart` | client/cmdlfem4x.c:384-397 | an end marker begins at or after the block start, after the start marker |
| `Em4x50.BandEdges` | client/cmdlfem4x.c:367-370 | widths at the band edges are accepted; 189, 195, 125 and 131 are rejected |
| `ParityConfirm.RenderedLoads` | client/cmdlfem4x.c:678-693 | copying the `'0'`/`'1'` text of any bit sequence of at most 65 bits gives back those bits, with the remaining slots of the 70-slot buffer 0 |
| `ParityConfirm.FlipPrefixComplements` | client/cmdlfem4x.c:728-732 | the second pass sees the first `len` bits complemented and the rest unchanged, and flipping twice restores the copy |
| `ParityConfirm.MatchRun` | client/cmdlfem4x.c:716-720 | the short-circuit trailer comparison is true iff the window equals the expected bits; it is undefined (`None`) iff it would read past slot 69 with every earlier bit matching |
| `ParityConfirm.TryRow` | client/cmdlfem4x.c:702-715 | the cursor moves onto the parity bit exactly when fewer than ten rows are held and the window passes the row check |
| `ParityConfirm.StepAt` | client/cmdlfem4x.c:700-726 | one iteration either ends the pass (never as "not confirmed") or moves the cursor on by 1 to 5 |
| `ParityConfirm.ConfirmTagParity` | client/cmdlfem4x.c:671-737 | a confirmed id has 10 digits |
| `ParityConfirm.PassAcceptsRow` | client/cmdlfem4x.c:702-715 | before the tenth row, an accepted row moves the pass on by 5 with the row added |
| `ParityConfirm.ConfirmPassSound` | client/cmdlfem4x.c:696-726 | a pass only confirms on ten rows, at least five apart from index 9 on, read as the id, followed by a window at or after the last row's parity bit equal to the column parity and 0 |
| `ParityConfirm.ConfirmedIsFrame` | client/cmdlfem4x.c:671-737 | a confirmed id rests on such a frame in the copy or in the copy with its first `len` bits flipped |
| `ParityConfirm.TrailerConfirms` | client/cmdlfem4x.c:713-725 | after the tenth row the window at the row's parity bit may fail, and then the next window is checked |
| `ParityConfirm.FrameConfirms` | client/cmdlfem4x.c:696-726 | a stream holding an encoded frame from index 0 is confirmed by the first pass for any length from 59 to 65 |
| `ParityConfirm.RowsThenTrailer` | client/cmdlfem4x.c:700-725 | from the k-th row of a frame whose rows each pass their check and build up the counters, the pass takes every remaining row and confirms at the trailer |
| `ParityConfirm.EncodedFrameConfirms` | client/cmdlfem4x.c:671-737 | round trip: the `'0'`/`'1'` text of an encoded frame with length 64 confirms the encoded digits |
| `Em410xWrite.PackCard` | client/cmdlfem4x.c:495-501 | the low byte of the packed word is the card type and the next byte the clock rate |
| `Em410xWrite.Write` | client/cmdlfem4x.c:450-510 | a command is sent iff the id fits in 40 bits, the card type is 0 or 1, and the clock rate is 0 for card 0 or 0, 16, 32 or 64 for card 1; the sentinel id and over-long ids give their own errors; the id halves recombine to the id; card 1 packs `1 + 256 * clock`, with a clock of 0 replaced by 64 |
| `Em410xWrite.WriteArgumentsUnpack` | client/cmdlfem4x.c:495-510 | card type, effective clock rate and id can be read back from the three arguments |
| `Em410xWrite.UnknownCardRefused` | client/cmdlfem4x.c:466-508 | an unknown card type is refused: a missing card first; a negative card, or an unknown card with no clock, is a bad card; otherwise a clock complaint |

## Left out

- Reading the sample buffer, `GetClock`, `AppendGraph`, `ClearGraph` and `CmdLFSim` are external. The samples are a parameter, and `Em410xRead` requires a clock greater than 0.
- The encoder's waveform is not modelled. The model keeps one symbol value per clock-wide cell, so the encoder and scanner meet at bit level rather than through the demodulator.
- `PrintAndLog`, `sprintf` of the hex digits, `printf` of the flipped stream, and `global_em410xId` are left out. Ids are sequences of integers 0..15.
- Command-line parsing (`param_gethex`, `sscanf`, the help texts, the command table) is left out. `Write` takes the parsed id, card and clock.
- `CmdEM410xWatch` and `CmdEM410xWatchnSpoof` are hardware acquisition loops with keyboard polling.
- The EM4x50 block walk (lines 415-444) calls the external `CmdManchesterDemod` and `CmdLtrim`, which rewrite the sample buffer.
- `CmdReadWord`, `CmdReadWordPWD`, `CmdWriteWord` and `CmdWriteWordPWD` are USB send-and-wait plumbing. `MWRem4xReplay` is commented out and interactive.
- `Em4x50Read`: when no marker is found, the source still computes a data start it then discards. The model returns `NoData` without that computation. The `end` sum is never used, so it is not modelled either.
- `Em4x50Read`: the width table size is the sample buffer length divided by 64. The buffer length stands for `MAX_GRAPH_TRACE_LEN`, and the sample count must not exceed it.
- `Em4x50Read`: the pulse loops at lines 348-353 read `GraphBuffer[i]` before they test `i < GraphTraceLen`. The model tests the bound first. The two orders differ only when `GraphTraceLen == MAX_GRAPH_TRACE_LEN`, where the source reads one sample past the end of `GraphBuffer`.
- `ConfirmTagParity`: a trailer comparison that would read past `BitStream[69]` is undefined behaviour in the source. It is reported as `OutOfRange`.
- `ConfirmTagParity`: its own contract only bounds the id length. What a confirmation means is stated by `ConfirmedIsFrame` and `EncodedFrameConfirms`.
- `Em410xScan.DecodeBits`: the id buffers are modelled as sequences that grow with `rows` and are cleared when `rows` is reset. At a hit, the ten digits printed are exactly the ten slots written since `rows` last climbed from 0, so the output is the same.
