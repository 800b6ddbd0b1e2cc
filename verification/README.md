# Verified models of GNU Radio stream receivers

This project models parts of GNU Radio in Dafny and proves properties of the models. Its core is two complete
receive chains, from sampled symbols to decoded messages:

* the FLEX pager receiver (`gr-pager/lib`): a synchroniser that finds the sync word with ten trial shift registers,
  estimates the bit centre, switches sampling rate in mid-frame and deals bits out to four phases; a deinterleaver
  that recovers 21-bit data words; a parser that turns the 88 words of a frame into addressed pages;
* the NOAA HRPT receiver (`gr-noaa/lib`): a deframer that recovers split-phase bits, finds the 60-bit frame sync and
  emits minor frames of 11090 words; a decoder that counts its way through them.

Four smaller stateful pieces follow: the scrolling waterfall history and the averaging ring of the Qt display
(with its noise floor estimate), the residual buffer of the Qt sink, and the job loop of the Cell benchmarks.

## How the model is built

Every block that changes its own fields is a class with those fields, and its work method is proved to compute a
fold of a step function over the samples it consumes (`Machine.Run`), so that everything below holds for every way
the scheduler may cut the stream into calls (`Machine.RunAppend`). Shift registers are 64-bit vectors; lemmas in
`ShiftRegister` and `FlexUtil` turn them into windows of bits once, and the rest of the proofs work on sequences of
booleans. Words that the parser and the HRPT blocks treat arithmetically are integers within the width of the
source's type.

Main results, and where they are:

* `FlexTransmitter.DeliveredFromPowerUp`: from power-up, any number of frames of messages, in any mixture of modes and
  with any check bits, transmitted one after the other; the parser of a phase reports exactly the messages whose
  vectors it accepts, in order, with their addresses, types and texts. `FlexTransmitter.FramesDelivered` says the same
  of arbitrary words on the phases. They put together `FlexQuiet.Quiet` and `FlexReady.ReadyIsEnough` (no sync word is
  found too early, also not in what an earlier frame left in the trial registers), `FlexAcquire.Acquires` (it is found
  at the first sample of its last bit), `FlexFrame.WholeFrame` (timing and content for every input),
  `FlexModulation.DemuxModulate`, `FlexChain.PhaseRoundTrip` (deinterleaving), `FlexPages.FrameRoundTrip` and
  `FlexBroadcast.BroadcastRoundTrip`.
* `FlexDistance.Recognises`: exactly which registers are recognised as which mode, with up to three wrong bits in the
  marker and up to three in the mode code, by differences counted place by place.
* `FlexFrame.WholeFrame`, `FlexFrame.BackToIdle`, `FlexFrame.Conservation`, `FlexReception.ChainAligned`: for every
  sample stream, however corrupted, the machine is busy for exactly the stated number of samples, always comes back
  to idle, and never leaves a parser out of step.
* `HrptEndToEnd.EndToEnd`, `HrptColdStart.ReceivedFromPowerUp`, `HrptReceiver.TransmissionDecoded`: a split-phase
  transmission of any number of minor frames gives exactly the transmitted words and frame counts;
  `HrptFraming.OutputIsFramed` and `HrptReceiver.ReceiverAligned` hold for every half-bit input.
* `FlexParse.ScannedIsFlat`: the numeric scanner, whose digit register runs across word boundaries, computes the flat
  reading of the bit string.
* `NoiseFloor.FloorIsMeanOfLow`: for any number of points the noise floor is the mean of exactly the bins at most 20
  above the mean of all of them.

Several properties that one would expect are false of the code, and are stated as what does hold:

* An alphanumeric message to a short address that ends in the last word of a frame is not reported, because the end
  is compared with 87 before it is made inclusive; `FlexBroadcast.BroadcastRoundTrip` says exactly which messages
  are reported, `LastWordIsLost` that the last word cannot be used and `NothingLost` that two unused words suffice.
* At 3200 baud a symbol is sampled inside itself only if the estimated bit centre lies between 3 and 7 samples into
  the 1600 baud bit; at 1600 baud it always is while the centre is inside the bit (`FlexModulation.SamplesOwnSymbol`).
  `FlexClipped.CentreTooEarly` gives runs from power-up on which the bound fails.
* The job loop does not always end: if any job is wanted and no wait fails, it hangs, waiting with nothing
  outstanding, exactly when at least 64 of the first `njobs + 63` submissions are refused
  (`JobLoop.Benchmark.RunTest`, and `JobLoop.RefusedTest` for such a run).

## Model

| member | source | states |
|---|---|---|
| `FlexModes.FastCount` | gnuradio-core/src/lib/general/gr_count_bits.cc:75-83 | The parallel bit count equals the number of one bits, counted bit by bit over the four bytes, for every 32-bit word |
| `FlexModes.ModeIsUnambiguous` | gr-pager/lib/pager_flex_sync.cc:93-98 | For any received code, the first-match search gives a mode exactly when the code passes the distance test against that mode; the order of the table does not matter |
| `FlexModes.MarkerNotTwice` | gr-pager/lib/pager_flex_sync.cc:89 | Two successive contents of the marker field cannot both pass the distance test against the marker, whatever bit was shifted in |
| `FlexDistance.CountIsOnes` | gnuradio-core/src/lib/general/gr_count_bits.cc:75-83 | The parallel bit count of a word is the number of ones in its 32 bits |
| `FlexDistance.NearIsDistance` | gr-pager/lib/pager_flex_sync.cc:89 | The distance test passes if and only if the two words differ in at most three of their 32 places, the differences counted place by place |
| `FlexDistance.Recognises` | gr-pager/lib/pager_flex_sync.cc:85-98 | A register is recognised as a mode if and only if its bits 16 to 47 differ from those of the mode's sync word in at most three places, and its other 32 bits in at most three |
| `FlexDistance.CloseToOne` | gr-pager/lib/pager_flex_sync.cc:93-98 | No register is that close to two sync words |
| `FlexDistance.MarkerShifted` | gr-pager/lib/pager_flex_sync.cc:89 | A marker with at most three wrong bits has more than three one place later, whatever bit comes in |
| `FlexModes.MatchesOnceZero` | gr-pager/lib/pager_flex_sync.cc:85-98 | A register that holds a sync word holds none after a zero is shifted in |
| `FlexModes.MatchesOnceOne` | gr-pager/lib/pager_flex_sync.cc:85-98 | A register that holds a sync word holds none after a one is shifted in |
| `FlexModes.FindFlexMode` | gr-pager/lib/pageri_flex_modes.cc:49-57 | The index of the mode with exactly this code, or -1 if and only if there is none |
| `FlexSync.Synchronizer.constructor` | gr-pager/lib/pager_flex_sync.cc:45-52 | Idle at 1600 baud with empty trial registers, whatever the information word holds |
| `FlexSync.SampleValid` | gr-pager/lib/pager_flex_sync.cc:275-336 | Every sample keeps the invariant of reachable states: index and centre ranges (the index may be -2 after the rate switch), counter ranges, phase bits that are not carried stay zero |
| `FlexSync.Synchronizer.FindMode` | gr-pager/lib/pager_flex_sync.cc:86-98 | The table search with early return finds a mode if and only if the register holds its sync word with at most three wrong bits in the marker and at most three in the code |
| `FlexSync.Synchronizer.Test` | gr-pager/lib/pager_flex_sync.cc:71-110 | Shifts one bit into the current trial register only; reports and stores a mode if and only if that register now holds its sync word with at most three wrong bits in the marker and at most three in the code |
| `FlexSync.Synchronizer.ToIdle` | gr-pager/lib/pager_flex_sync.cc:112-130 | Resets every counter, the rate and the phase bits, and leaves the trial registers alone |
| `FlexSync.Synchronizer.ToSync1` | gr-pager/lib/pager_flex_sync.cc:138-144 | Fixes the end of good sync and the bit centre |
| `FlexSync.Synchronizer.ToSync2` | gr-pager/lib/pager_flex_sync.cc:146-164 | Takes rate and levels from the mode; at 3200 baud halves the centre and moves index and counter back |
| `FlexSync.Synchronizer.Output` | gr-pager/lib/pager_flex_sync.cc:194-259 | What one symbol does to the phase bits and which bits it writes |
| `FlexSync.Synchronizer.AtSync1` | gr-pager/lib/pager_flex_sync.cc:294-306 | Collects the information word at bit centres and goes on after 48 of them |
| `FlexSync.Synchronizer.AtData` | gr-pager/lib/pager_flex_sync.cc:320-330 | Writes a symbol out and returns to idle after 1760 ms |
| `FlexSync.Synchronizer.Take` | gr-pager/lib/pager_flex_sync.cc:275-336 | The switch over the five states changes the state and writes the output that the step function says |
| `FlexSync.Synchronizer.GeneralWork` | gr-pager/lib/pager_flex_sync.cc:261-340 | A call consumes a prefix of its input, stops early only when the output is full, and state and output are those of the fold over that prefix |
| `FlexTiming.Countdown` | gr-pager/lib/pager_flex_sync.cc:294-330 | From the end of the sync stage on, every sample, whatever it is, brings the return to idle exactly one sample nearer, across the change of rate |
| `FlexTiming.SyncingRun` | gr-pager/lib/pager_flex_sync.cc:287-292 | The sync stage lasts less than ten samples more: each sample tests another trial register and the first would come round again |
| `FlexTiming.SyncingEnds` | gr-pager/lib/pager_flex_sync.cc:287-292 | For every stream the sync stage is left within ten samples |
| `FlexTiming.MidPoint` | gr-pager/lib/pager_flex_sync.cc:62-69 | The average of two positions on the circle of ten is half-way from the first to the second, also with wrap-around and for a full turn |
| `FlexTiming.BitCentre` | gr-pager/lib/pager_flex_sync.cc:138-144 | On leaving the sync stage after d samples, d is 1 to 10, the centre is start + floor(d/2) modulo 10, nothing was written, and the time to the end of the frame is fixed |
| `FlexInfo.InfoWord` | gr-pager/lib/pager_flex_sync.cc:295-305 | From 48 bits after the sync word to the end of the frame, the information word register holds bits 17 to 48, in order and with the polarity of the source, whatever it held before |
| `FlexFrame.SymbolOutput` | gr-pager/lib/pager_flex_sync.cc:194-259 | One symbol extends the output by what the phase mapping says, including the alternation at 3200 baud |
| `FlexFrame.WholeFrame` | gr-pager/lib/pager_flex_sync.cc:275-336 | If the sync stage lasted d samples the machine is first idle again 29040 + floor(d/2) samples after entering it, and 2 more at 3200 baud, and the phases have received exactly the bits carried by the symbols at the bit centres |
| `FlexFrame.FrameOutput` | gr-pager/lib/pager_flex_sync.cc:320-330 | A frame is exactly 2816 bits on each phase at either rate; phases the mode does not carry are zero throughout |
| `FlexFrame.BackToIdle` | gr-pager/lib/pager_flex_sync.cc:275-336 | From every reachable state and for every input the machine is idle within 29052 samples |
| `FlexFrame.Conservation` | gr-pager/lib/pager_flex_sync.cc:320-330 | In every run the bits on each phase are a whole number of frames plus those of the frame in progress |
| `FlexModulation.DemuxModulate` | gr-pager/lib/pager_flex_sync.cc:201-223 | Receiving the Gray-coded, alternated symbols of any four bit streams gives back the streams the mode carries and zeros on the others |
| `FlexModulation.ModulateDemux` | gr-pager/lib/pager_flex_sync.cc:207-223 | The four output streams are the only bits that give the received symbols |
| `FlexModulation.SamplesOwnSymbol` | gr-pager/lib/pager_flex_sync.cc:146-164 | Every data symbol is sampled inside itself if and only if the estimated centre satisfies the stated bounds, which differ between the two rates |
| `FlexModulation.SamplesAreSymbols` | gr-pager/lib/pager_flex_sync.cc:320-330 | Under those bounds the sampled symbols are the transmitted ones when each is held for its duration |
| `FlexAcquire.SyncWordModes` | gr-pager/lib/pager_flex_sync.cc:73-98 | The 64-bit sync word built from each mode code is recognised as that mode |
| `FlexAcquire.RegisterRun` | gr-pager/lib/pager_flex_sync.cc:277-292 | While the machine hunts, each of the ten trial registers collects exactly every tenth sample |
| `FlexAcquire.FullRegister` | gr-pager/lib/pager_flex_sync.cc:85 | A register that has taken the 64 bits of a word is that word, whatever it held |
| `FlexAcquire.HoldsSync` | gr-pager/lib/pager_flex_sync.cc:279-292 | From the first sample of the last sync bit on, every trial register in turn holds the sync word |
| `FlexAcquire.Acquires` | gr-pager/lib/pager_flex_sync.cc:279-292 | A clean oversampled sync word with nothing found earlier enters the sync stage at the first sample of its last bit, stays exactly ten samples, and sets the transmitted mode |
| `FlexQuiet.Unmarked` | gr-pager/lib/pager_flex_sync.cc:85-89 | No marker comes near while the first 63 bits of any sync word enter a register that is empty or holds an older sync word and up to two arbitrary bits |
| `FlexQuiet.AfterIsShifted` | gr-pager/lib/pager_flex_sync.cc:85 | Shifting two words as one long register is taking the bits of the lower one in, first bit first |
| `FlexQuiet.Quiet` | gr-pager/lib/pager_flex_sync.cc:85-98 | So no mode is recognised in such a register before the last bit of the new sync word |
| `FlexReady.NeverEarly` | gr-pager/lib/pager_flex_sync.cc:279-284 | A ready receiver finds nothing before the last bit of a clean sync word |
| `FlexReady.ReadyIsEnough` | gr-pager/lib/pager_flex_sync.cc:279-284 | From power-up, and after any frame, a clean sync word of any mode is acquired without any further condition |
| `FlexReady.AfterSync` | gr-pager/lib/pager_flex_sync.cc:279-292 | When the sync stage is left, every trial register holds the sync word, one of them one bit further |
| `FlexReady.FrozenRun` | gr-pager/lib/pager_flex_sync.cc:294-330 | The rest of the frame leaves the trial registers alone and ends at index zero |
| `FlexReady.TrailingReady` | gr-pager/lib/pager_flex_sync.cc:279-284 | The samples left of the last data symbol find nothing and leave the receiver ready |
| `FlexClipped.SignalIsClipped` | gr-pager/lib/pager_flex_sync.cc:279-284 | A sample stream in which each bit of the sync word is seen for its first d samples only |
| `FlexClipped.ClippedAcquires` | gr-pager/lib/pager_flex_sync.cc:279-292 | For every mode and every d from 1 to 9 a sync word seen only for the first d samples of each bit is acquired from power-up, and the sync stage lasts exactly d samples |
| `FlexClipped.CentreTooEarly` | gr-pager/lib/pager_flex_sync.cc:138-164 | At 3200 baud such a run samples some data symbol outside itself if and only if d is at most 5 |
| `FlexUtil.ReversedByte` | gr-pager/lib/pageri_util.cc:28-36 | Multiply, mask and modulus move each bit of a byte to its mirror position |
| `FlexUtil.ReverseByteWindow` | gr-pager/lib/pageri_util.cc:28-36 | The reversed byte read as bits is the mirror of the byte |
| `FlexUtil.ReverseWindow` | gr-pager/lib/pageri_util.cc:38-46 | The reversed 32-bit word read as bits is the mirror of the word |
| `FlexDeinterleave.Deinterleaver.ShiftInBlock` | gr-pager/lib/pager_flex_deinterleave.cc:68-74 | After a block each codeword register has taken every eighth bit, starting at its own |
| `FlexDeinterleave.Deinterleaver.Work` | gr-pager/lib/pager_flex_deinterleave.cc:44-94 | Whatever the registers held, output word j is the first 21 bits of column j complemented, least significant first, with the high bits clear |
| `FlexDeinterleave.Received` | gr-pager/lib/pager_flex_deinterleave.cc:76-90 | Reversing, masking and inverting a full codeword register gives its data word |
| `FlexChain.ReadingIsDataWord` | gr-pager/lib/pager_flex_deinterleave.cc:88-90 | The output register read as an integer is the value of the complemented data bits |
| `FlexChain.DeinterleavePhase` | gr-pager/lib/pager_flex_deinterleave.cc:44-94 | The deinterleaver called for each block of a phase in turn puts out the data words of the phase, whatever it held before |
| `FlexChain.BlockRoundTrip` | gr-pager/lib/pager_flex_deinterleave.cc:51-63 | Deinterleaving undoes interleaving for any eight data words and any check bits |
| `FlexChain.PhaseRoundTrip` | gr-pager/lib/pager_flex_deinterleave.cc:68-93 | Any number of blocks of data words are recovered from the bits of a phase |
| `FlexChain.SilentPhase` | gr-pager/lib/pager_flex_sync.cc:39-43 | The zeros of an unused phase decode to idle words only |
| `FlexChain.ParserCount` | gr-pager/lib/pager_flex_parse.cc:54-62 | The number of words in the array is the number of words received modulo 88 |
| `FlexChain.FrameParsed` | gr-pager/lib/pager_flex_parse.cc:54-62 | Eighty-eight words received in step are looked at once, in their order, and the count is zero again |
| `FlexChain.FramesParsed` | gr-pager/lib/pager_flex_parse.cc:48-65 | Any number of frames in a row: each is parsed by itself and in order |
| `FlexReception.FrameReceived` | gr-pager/python/flex_demod.py:46-51 | After any sync stage whose centre satisfies the bounds, the phases receive exactly the bits sent |
| `FlexReception.PhasesCarried` | gr-pager/lib/pageri_flex_modes.cc:24-31 | Rate, levels and phases of each mode: phase A always, B in all but the first, C and D in the two at 3200 baud |
| `FlexReception.TransmissionReceived` | gr-pager/python/flex_demod.py:46-51 | A clean sync word followed by a frame: the machine is idle at its end and the phases have received exactly the bits sent |
| `FlexReception.FrameToPages` | gr-pager/python/flex_demod.py:46-51 | End to end from samples to pages, for any words on the phases, any mode and any check bits; parsers of phases not carried report nothing |
| `FlexReception.ChainAligned` | gr-pager/python/flex_demod.py:50-51 | In every run each parser holds eight words for every block of the frame in progress, so none when the synchroniser is idle |
| `FlexEndToEnd.MessagesDelivered` | gr-pager/python/flex_demod.py:46-51 | One frame of addressed messages, end to end: exactly those whose vectors are acceptable, and all of them if two words are left unused |
| `FlexTransmitter.TransmitIsClean` | gr-pager/python/flex_demod.py:46-51 | A transmitter that holds each symbol for its duration makes a clean transmission for a ready receiver, in every mode and with any header |
| `FlexTransmitter.TransmitReceived` | gr-pager/python/flex_demod.py:46-51 | One such frame is received exactly and leaves the receiver ready again |
| `FlexTransmitter.SignalsReceived` | gr-pager/python/flex_demod.py:46-51 | Any number of frames, in any mixture of modes, one after the other: the phases receive exactly the bits sent, frame by frame |
| `FlexTransmitter.FramesDelivered` | gr-pager/python/flex_demod.py:46-51 | And the parser of each phase reports the pages of the words sent on it, frame by frame, with nothing from frames whose mode does not carry the phase |
| `FlexTransmitter.DeliveredFromPowerUp` | gr-pager/python/flex_demod.py:46-51 | From power-up, for any number of frames of messages, the parser of a phase reports exactly the messages whose vectors it accepts, in the order sent |
| `FlexParse.Parser.constructor` | gr-pager/lib/pager_flex_parse.cc:38-46 | An empty array count, whatever the array holds |
| `FlexParse.Parser.ParseCapcode` | gr-pager/lib/pager_flex_parse.cc:73-83 | Address class and capcode, including the 32-bit wrap-around of a long one |
| `FlexParse.ScannedIsFlat` | gr-pager/lib/pager_flex_parse.cc:209-231 | Shifting bit by bit with a running count gives the header-stripped bit string cut into four-bit digits, the fill digits dropped, for every bit string |
| `FlexParse.Parser.ScanWord` | gr-pager/lib/pager_flex_parse.cc:217-228 | The 21-bit loop continues the scan across the word boundary |
| `FlexParse.Parser.ParseNumeric` | gr-pager/lib/pager_flex_parse.cc:195-232 | The text of a numeric message is the flat reading of its words: mw1 to mw2, or the word after the vector and then mw1 to mw2-1 for a long address |
| `FlexParse.Parser.ParseAlphanumeric` | gr-pager/lib/pager_flex_parse.cc:156-193 | The text of an alphanumeric message is the text of its words, the first character left out when the fragment field is 3 |
| `FlexParse.Parser.ParsePage` | gr-pager/lib/pager_flex_parse.cc:117-149 | Which vectors are accepted, and the body of the page |
| `FlexParse.Parser.ParseAddress` | gr-pager/lib/pager_flex_parse.cc:102-153 | One pass of the page loop: what is reported and where the next address is |
| `FlexParse.Parser.ParseData` | gr-pager/lib/pager_flex_parse.cc:85-154 | A frame appends exactly its pages to the queue |
| `FlexParse.Parser.Work` | gr-pager/lib/pager_flex_parse.cc:48-65 | A call stores its words and looks at the frame after every 88th; array, count and queue are those of the fold |
| `FlexPages.CapcodeRoundTrip` | gr-pager/lib/pager_flex_parse.cc:73-83 | Every short and long capcode is read back from its address words, and neither looks idle |
| `FlexPages.CapcodeOfWords` | gr-pager/lib/pager_flex_parse.cc:73-83 | Of all words of 21 bits, exactly those up to 0x8000 and above 0x1E0000 begin a long address; its capcode is the number that its two words stand for modulo 2^32, negative exactly when bit 31 of that number is set |
| `FlexPages.VectorRoundTrip` | gr-pager/lib/pager_flex_parse.cc:117-123 | Page type, start and length are read back from the vector word; the length of a numeric page is three bits and the four bits above it do not matter |
| `FlexPages.OnePage` | gr-pager/lib/pager_flex_parse.cc:102-152 | A page whose address and vector words are in place, with any unused bits in the vector, is reported with its own address, vector and message, and consumes one or two slots |
| `FlexPages.IdleAddress` | gr-pager/lib/pager_flex_parse.cc:105-107 | An address word of all zeros or all ones is passed over, and its vector with it |
| `FlexPages.NegativeAddress` | gr-pager/lib/pager_flex_parse.cc:109-114 | A long address with a negative capcode is passed over, with both its words and both its vector words |
| `FlexPages.WalkPages` | gr-pager/lib/pager_flex_parse.cc:102-153 | The page loop visits exactly the pages laid out, in order, long addresses taking two address and two vector words |
| `FlexPages.FrameRoundTrip` | gr-pager/lib/pager_flex_parse.cc:85-154 | A frame built from any list of pages with short and long addresses is parsed into exactly the messages of those pages, in order, for every value of the unused bits of the vectors and of the block information word, unless that word is all ones; pages whose vector is not acceptable are passed over |
| `FlexPages.BeyondDoesNotMatter` | gr-pager/lib/pager_flex_parse.cc:195-232 | When the last vector lies inside the array, words after the array do not affect the pages, although one may be loaded |
| `FlexMessages.PackedBits` | gr-pager/lib/pager_flex_parse.cc:216-231 | Packing a bit string into 21-bit words is undone by reading them least significant bit first |
| `FlexMessages.NumericRoundTrip` | gr-pager/lib/pager_flex_parse.cc:195-232 | Every digit string of any length is read back from its packed words, which start with any ten header bits for page type 7 and any two for the other types |
| `FlexMessages.TextOfSlots` | gr-pager/lib/pager_flex_parse.cc:175-192 | The text of words of three characters is the text of the characters, less the first when it is not used |
| `FlexMessages.TextRoundTrip` | gr-pager/lib/pager_flex_parse.cc:156-193 | Every seven-bit text is read back from its words, with or without a leading signature |
| `FlexBroadcast.OneNotice` | gr-pager/lib/pager_flex_parse.cc:117-149 | A message placed in a frame is reported with its text exactly when its length field does not point beyond word 87 |
| `FlexBroadcast.BroadcastRoundTrip` | gr-pager/lib/pager_flex_parse.cc:85-154 | A frame of any messages that fit is parsed into exactly those whose vectors are acceptable, each with its own address, type and text; page types are given by number, and numeric vectors may have any bits above the length |
| `FlexBroadcast.NothingLost` | gr-pager/lib/pager_flex_parse.cc:132-133 | All messages are reported if they end before the last two words of the frame |
| `FlexBroadcast.LastWordIsLost` | gr-pager/lib/pager_flex_parse.cc:132-143 | A frame whose only message is alphanumeric, to a short address, and ends in the last word is parsed into no pages |
| `HrptDeframer.Deframer.constructor` | gr-noaa/lib/noaa_hrpt_deframer.cc:42-51 | Unlocked and searching, whatever the shifter and the counters hold |
| `HrptDeframer.Deframer.Recover` | gr-noaa/lib/noaa_hrpt_deframer.cc:86-115 | One recovered bit: search, or collection of a word and return to search after the last |
| `HrptDeframer.Deframer.GeneralWork` | gr-noaa/lib/noaa_hrpt_deframer.cc:68-126 | A call consumes a prefix of its input, stops early only when the output is full, and state and output are those of the fold over that prefix |
| `HrptReception.LockedReception` | gr-noaa/lib/noaa_hrpt_deframer.cc:79-121 | Once the bit clock is right it stays right, in either state, and every bit taken is the transmitted bit |
| `HrptReception.SelfLocking` | gr-noaa/lib/noaa_hrpt_deframer.cc:79-121 | Until something is found, the clock is right if and only if it was right at the start or two adjacent bits have differed |
| `HrptReception.CollectedValue` | gr-noaa/lib/noaa_hrpt_deframer.cc:102 | Collecting the bits of a word, most significant first, gives the word |
| `HrptReception.CollectedBits` | gr-noaa/lib/noaa_hrpt_deframer.cc:102 | Sending a collected word gives the bits collected |
| `HrptReception.MatchWindow` | gr-noaa/lib/noaa_hrpt_deframer.cc:90 | The match test holds exactly when the last sixty bits are the sync pattern |
| `HrptReception.SyncWordsArePattern` | gr-noaa/lib/noaa_hrpt.h:26-33 | The six words written when the sync is found are, as bits, the sync pattern |
| `HrptReception.SyncIsPrimitive` | gr-noaa/lib/noaa_hrpt.h:33 | No proper rotation of the sync pattern equals it |
| `HrptEndToEnd.StaleSilent` | gr-noaa/lib/noaa_hrpt_deframer.cc:87-98 | After a frame the stale shifter cannot match before the next sync is complete |
| `HrptEndToEnd.FindSync` | gr-noaa/lib/noaa_hrpt_deframer.cc:87-98 | A search that has not matched before matches with the sixtieth bit of the sync and writes the six words |
| `HrptEndToEnd.BodyRun` | gr-noaa/lib/noaa_hrpt_deframer.cc:101-110 | The bits of ten-bit words are written out as exactly those words |
| `HrptEndToEnd.FrameRun` | gr-noaa/lib/noaa_hrpt_deframer.cc:86-111 | The bits of a minor frame give exactly its 11090 words and a return to search |
| `HrptEndToEnd.FramesRun` | gr-noaa/lib/noaa_hrpt_deframer.cc:86-111 | So do any number of minor frames back to back |
| `HrptEndToEnd.EndToEnd` | gr-noaa/lib/noaa_hrpt_deframer.cc:68-126 | From any searching state: a preamble with a change of bit and no early sync, followed by any number of minor frames, gives exactly their words |
| `HrptColdStart.QuietSearch` | gr-noaa/lib/noaa_hrpt_deframer.cc:87-98 | From an empty shifter that has taken a one, zeros and an incomplete sync are never mistaken for the sync |
| `HrptColdStart.ReceivedFromPowerUp` | gr-noaa/lib/noaa_hrpt_deframer.cc:68-126 | From power-up with an empty shifter, a one and two or more zeros are a sufficient preamble: any number of minor frames follow exactly |
| `HrptFraming.OutputIsFramed` | gr-noaa/lib/noaa_hrpt_deframer.cc:79-121 | For every half-bit input the output is whole frames and a prefix of one: sync words in place, every word below 1024, length in step with the counters |
| `HrptDecoder.Decoder.ProcessMfnum` | gr-noaa/lib/noaa_hrpt_decoder.cc:128-149 | The frame number is bits 7 and 8 of the word; the number expected next is the one that follows in the circle 1, 2, 3 (1 after the unused 0), and an error is counted only after the first frame |
| `HrptDecoder.NumberBits` | gr-noaa/lib/noaa_hrpt_decoder.cc:131 | The frame number is the value of bits 7 and 8 |
| `HrptDecoder.NextInSequence` | gr-noaa/lib/noaa_hrpt_decoder.cc:148 | The number expected is the only one that comes after in the circle 1, 2, 3 |
| `HrptDecoder.Decoder.ProcessWord` | gr-noaa/lib/noaa_hrpt_decoder.cc:90-114 | Which field is taken from which word |
| `HrptDecoder.Decoder.Work` | gr-noaa/lib/noaa_hrpt_decoder.cc:76-126 | The state after a call is that of the fold over its words |
| `HrptDecoder.DecoderCounts` | gr-noaa/lib/noaa_hrpt_decoder.cc:84-149 | For every stream the word number is the words consumed modulo 11090, and the sequence errors are the frames after the first whose number, bits 7 and 8 of word 7, does not come after that of the frame before in the circle 1, 2, 3 |
| `HrptDecoder.DecoderFields` | gr-noaa/lib/noaa_hrpt_decoder.cc:128-190 | For every stream the fields are those of the frame in progress: number and address from bits 7-8 and 3-6 of word 7, the timestamp rebuilt from 7, 10 and 10 bits of words 10 to 12 |
| `HrptReceiver.ReceiverAligned` | gr-noaa/lib/noaa_hrpt_decoder.cc:84-123 | For every half-bit input the decoder is at the word the deframer is at |
| `HrptReceiver.TransmissionDecoded` | gr-noaa/lib/noaa_hrpt_decoder.cc:76-149 | A transmission of N minor frames is counted as N frames, with one sequence error for every pair of neighbours not numbered in the circle 1, 2, 3 |
| `HrptReceiver.CyclicDecoded` | gr-noaa/lib/noaa_hrpt_decoder.cc:76-149 | A transmission of N minor frames numbered 1, 2, 3 in a circle, from any of them on, is counted as N frames without sequence errors |
| `Waterfall.WaterfallData.constructor` | gr-qtgui/lib/waterfallGlobalData.cc:6-22 | A blank history |
| `Waterfall.WaterfallData.Reset` | gr-qtgui/lib/waterfallGlobalData.cc:29-34 | Blanks the history |
| `Waterfall.WaterfallData.ResizeData` | gr-qtgui/lib/waterfallGlobalData.cc:51-66 | A change of size or range gives a new blank history, no change a blanked one |
| `Waterfall.WaterfallData.Scroll` | gr-qtgui/lib/waterfallGlobalData.cc:113-135 | The overlapping move, the blanking and the copy together drop the oldest data and append the dropped rows and the new one, also when more rows were dropped than the buffer holds |
| `Waterfall.WaterfallData.AddFFTData` | gr-qtgui/lib/waterfallGlobalData.cc:109-137 | After every call the flat buffer is the end of the log of all rows since the reset; a row of another size changes nothing |
| `Waterfall.HistoryRow` | gr-qtgui/lib/waterfallGlobalData.cc:109-137 | Row r of the buffer is the row that many places from the end of the log, or blank before its start |
| `SpectrumAverage.SumRotated` | gr-qtgui/lib/spectrumdisplayform.cc:473-478 | Summing the ring in slot order gives the sum in order of arrival |
| `SpectrumAverage.HoldsNext` | gr-qtgui/lib/spectrumdisplayform.cc:459-469 | Storing at the entry keeps the ring equal to the newest buffers, rotated |
| `SpectrumAverage.SpectrumDisplayForm.constructor` | gr-qtgui/lib/spectrumdisplayform.cc:28-44 | No averaging, no data |
| `SpectrumAverage.SpectrumDisplayForm.AverageDataReset` | gr-qtgui/lib/spectrumdisplayform.cc:518-528 | Forgets all buffers and shows zeros |
| `SpectrumAverage.SpectrumDisplayForm.SetAverageCount` | gr-qtgui/lib/spectrumdisplayform.cc:436-454 | A new count resizes the ring and resets; the same or a negative count changes nothing |
| `SpectrumAverage.SpectrumDisplayForm.ResizeBuffers` | gr-qtgui/lib/spectrumdisplayform.cc:487-507 | A new size keeps the count and forgets all buffers; the same size changes nothing |
| `SpectrumAverage.SpectrumDisplayForm.AverageHistory` | gr-qtgui/lib/spectrumdisplayform.cc:456-485 | After any interleaving of calls, every place shows the mean of the newest min(k, N) buffers since the last reset, or the newest buffer when averaging is off |
| `SpectrumAverage.SpectrumDisplayForm.TotalUp` | gr-qtgui/lib/spectrumdisplayform.cc:471-479 | The nested loops compute those means |
| `SpectrumAverage.SpectrumDisplayForm.Fill` | gr-qtgui/lib/spectrumdisplayform.cc:162-203 | The two loops store the second half of the points before the first and sum them; the place of an odd last point keeps its zero |
| `SpectrumAverage.ShiftTwice` | gr-qtgui/lib/spectrumdisplayform.cc:162-203 | For an even number of points the two halves change places: doing it twice changes nothing |
| `SpectrumAverage.SpectrumDisplayForm.NewFrequencyData` | gr-qtgui/lib/spectrumdisplayform.cc:141-232 | Bins, averaging history and noise floor after a new spectrum of any size, repeated or not; the noise floor is the mean of the bins at most 20 above the mean of all |
| `SpectrumAverage.NoiseFloorShown` | gr-qtgui/lib/spectrumdisplayform.cc:213-231 | For every positive number of points the noise floor is the mean of exactly the bins at most 20 above the mean of all bins shown, and not above the latter |
| `NoiseFloor.NoiseFloorAmplitude` | gr-qtgui/lib/spectrumdisplayform.cc:213-231 | The two passes compute the mean of exactly the bins at most 20 above the mean, of an even number of bins or with the zero that fills an odd one |
| `NoiseFloor.SomethingKept` | gr-qtgui/lib/spectrumdisplayform.cc:218-231 | For every positive number of bins, odd or even, the divisor is not zero |
| `NoiseFloor.KeptExactly` | gr-qtgui/lib/spectrumdisplayform.cc:218-226 | The bins kept are those not above the limit, each as often as it occurs, and no others |
| `NoiseFloor.FloorIsMeanOfLow` | gr-qtgui/lib/spectrumdisplayform.cc:213-231 | For every positive number of bins the noise floor is the mean of exactly the bins at most 20 above the mean of all of them, and there are some |
| `NoiseFloor.FloorOfFlatSpectrum` | gr-qtgui/lib/spectrumdisplayform.cc:213-231 | If no bin is more than 20 above the mean, the noise floor is the mean |
| `NoiseFloor.NoneKept` | gr-qtgui/lib/spectrumdisplayform.cc:228-229 | The divisor is zero exactly when every bin is above the limit |
| `NoiseFloor.FloorBelowMean` | gr-qtgui/lib/spectrumdisplayform.cc:213-231 | The noise floor never exceeds the mean of all bins, for any positive number of bins |
| `SinkBuffer.Sink.FftResize` | gr-qtgui/lib/qtgui_sink_c.cc:230-253 | A new size throws away what is held; the same size changes nothing |
| `SinkBuffer.Sink.Take` | gr-qtgui/lib/qtgui_sink_c.cc:269-294 | One pass of the loop uses just what completes the block, or all that is offered |
| `SinkBuffer.Sink.Gather` | gr-qtgui/lib/qtgui_sink_c.cc:269-294 | The loop uses exactly the stated number of items although it counts in whole blocks while copying from behind, and appends just those to the stream |
| `SinkBuffer.Sink.GeneralWork` | gr-qtgui/lib/qtgui_sink_c.cc:256-298 | The call consumes the stated number of items, at most those offered, and the blocks sent so far are exactly the consecutive blocks of everything consumed |
| `SinkBuffer.GatheredBlocks` | gr-qtgui/lib/qtgui_sink_c.cc:269-294 | Blocks gathered over any cutting of the stream into calls are the blocks of the stream |
| `JobLoop.PassKeeps` | gcell/apps/benchmark_dma.cc:182-203 | One pass keeps submitted less completed equal to the jobs remembered, which are picked from those outstanding without repetition, whatever completes or is refused |
| `JobLoop.PassProgress` | gcell/apps/benchmark_dma.cc:186-187 | A pass that finds a job done counts it |
| `JobLoop.PassFull` | gcell/apps/benchmark_dma.cc:192-196 | If nothing is refused, the list shrinks only when enough has been submitted |
| `JobLoop.AccountPass` | gcell/apps/benchmark_dma.cc:182-203 | Until enough has been submitted, every descriptor is outstanding, remembered or lost to a refusal; one is left when the last job wanted is accepted |
| `JobLoop.Benchmark.FirstBatch` | gcell/apps/benchmark_dma.cc:162-172 | After the first batch the accepted descriptors are outstanding, without repetition |
| `JobLoop.Benchmark.OnePass` | gcell/apps/benchmark_nop.cc:104-123 | The inner loop over the two arrays computes that pass |
| `JobLoop.Benchmark.RunTest` | gcell/apps/benchmark_nop.cc:84-124 | At every loop head the outstanding jobs are distinct and are those submitted and not completed; the n-th wait is for a positive number of jobs, and the test ends with a failed wait if and only if one of the waits it makes fails, which is then the last; if no wait fails the test hangs if and only if a job is wanted and at least 64 of the first njobs + 63 submissions are refused, and finishes otherwise; with nothing refused and at least 64 jobs wanted every one is completed and nothing is outstanding |
| `JobLoop.RefusedTest` | gcell/apps/benchmark_nop.cc:84-124 | With every submission refused the test hangs whenever any job is wanted |
| `Machine.RunAppend` | gr-pager/lib/pager_flex_sync.cc:275-339 | Cutting the stream into two calls changes neither the final state nor the output |

## Left out

Behaviour of the repository that the model does not have:

* `pageri_bch3221` is a stub that changes nothing (gr-pager/lib/pageri_bch3221.cc:33-36); no error correction is claimed, and check bits are arbitrary.
* Printing, message queues and their text format, the frequency field, the tone-only and unknown page bodies (empty in the source), `forecast`, and the number of items a scheduler offers: calls get arbitrary chunks.
* `parse_fiw` splits the information word into fields that nothing uses; the word itself is modelled.
* The continuation bit of an alphanumeric message, which is read and not used.
* The slicer, the HRPT phase-locked loop and the FFT: floating-point signal processing. Sums and means of the spectrum display are over exact reals.
* Overflow of counters that never stop growing (frames seen, sequence errors, jobs counted): they are unbounded here.
* The peak search, the magnitudes of the points (their levels are given) and the drawing in `newFrequencyData`; the waterfall's `value`, `Copy` and buffer access functions.
* The descriptor status printed by the benchmarks, the timing and the job manager itself, which appears as the results of submitting and waiting.
* Qt and wx windows, flow graphs, hardware devices, the audio registry and the remaining blocks of the repository: input and output, or thin wrappers.

How some things are represented:

* Contents that the source does not initialise (the HRPT shifter and counters, the information word, the codeword and data word arrays, new averaging buffers) are parameters, so the results hold whatever they are.
* A read past the end of the parser's array gives whatever the parameter `beyond` says; `FlexPages.BeyondDoesNotMatter` shows when that cannot matter.
* The queue of the parser keeps the capcode, the page type and the message text of each page rather than one formatted string.
* The deframer's and the synchroniser's output is a growing sequence; the six sync words are written even if fewer places are left, as in the source.
* HRPT words and FLEX data words are integers; shifts and masks on them are multiplication, division and remainder.
* The averaging buffers are sequences in a field that is reassigned, because sharing of the buffers between slots does not occur.
* The local variables of the benchmarks' test loop are the fields of a class, its two lists one two-dimensional array; a wait with nothing outstanding never returns and ends the model's run.

Contracts that say less than one might expect:

- HrptReception.SelfLocking: speaks of the time until something is found, because a stale shifter may match before the clock is right.
- HrptEndToEnd.EndToEnd: requires that no sync is found before the first transmitted sync is complete, because earlier contents of the shifter are arbitrary; `HrptColdStart.ReceivedFromPowerUp` discharges this for an empty shifter.
- FlexAcquire.Acquires: requires that nothing is found before the last bit of the sync word, because earlier contents of the trial registers are arbitrary; `FlexReady.ReadyIsEnough` discharges this at power-up and after every frame.
- FlexMessages.NumericRoundTrip: digit 12 is the fill digit and cannot be sent; the space is digit 10.
- Waterfall.WaterfallData.AddFFTData: requires a height of at least one row and a number of dropped frames that is not negative, as its caller gives.
- SpectrumAverage.SpectrumDisplayForm.SetAverageCount: does not say what new slots hold, because they are not read before they are written.
- NoiseFloor.NoiseFloorAmplitude: requires at least one bin, because the source divides by their number; so does `NewFrequencyData`.
