# Sample codecs and header bookkeeping of sndfile2k, modelled and proved in Dafny

The project models the code of the library that turns samples into bytes and back, and the code
that keeps track of where those bytes are: the DWVW coder, the WAV IMA, Microsoft and OKI ADPCM
coders with their block buffers, the ALAC packet table with the reader and writer around the block
coder, the growing header buffer with its format-driven printer and parser, the header of a CAF file
around ALAC packets, the string tags of CAF files, the list of chunks and its iterator, the IEEE
number formats written without host support, and the 80-bit sample rate of AIFF files.

`dafny verify dfyconfig.toml` checks everything.

## How it is built

Each component has a part on values and a part on objects. The value part (`DwvwCode`, `DwvwFile`,
`ImaCode`, `ImaBlock`, `MsCode`, `MsBlock`, `AdpcmStream`, `AdpcmLevel`, `OkiCode`, `AlacTable`,
`AlacStream`, `AlacPlay`, `HeaderRoom`, `HeaderFormat`, `CafLayout`, `CafStrings`) says what a bit
string, a block, a table, a run of seeks or a chunk means, and holds the theorems about it; where
writer and reader share a function, laws about numbers and a worked example, byte for byte, say
which function it is. The object part (`Dwvw`, `Ima`, `Ms`, `AdpcmFile`, `Oki`, `AlacWriter`,
`AlacReader`, `Header`, `HeaderPrint`, `CafWriter`, `CafReader`, `CafInfo`, `ChunkIterator`) has the
source's private structs as classes and arrays and its loops as loops, each method proved against
the value part. The `...RoundTrip` modules run a writer and a reader after each other.

A file is a sequence of bytes with a position. 32-bit and 16-bit stores, C's truncating `/` and `%`,
and arithmetic shifts are written out (`Bits.Int32`, `Bits.Int16`, `Bits.CDiv`, `Bits.CRem`,
`Bits.ShiftRight`), as are the 32-bit unsigned products of the ALAC reader. Bits are `bool`s, most
significant first. Channel count, frame count, call sizes and file contents are parameters. The ALAC
block coder is a pair of functions on blocks of 32-bit samples: its encoder may look at all blocks
coded before, its decoder starts afresh on every packet. `AlacRaw` is a coder that stores samples as
they are, in the manner of the library's coder for blocks it cannot compress; it meets every
hypothesis made about a coder, so that the results about coders speak of one at least.

## What came out

- DWVW is lossless bit for bit for every word width from 2 to 24, with wrapped deltas, the extra bit
  and the modular width change, as long as enough bits follow (`DwvwFile.EncodedIsDecoded`). For
  whole files, of words up to 13 and from 16 to 24 bits, the twelve zero samples written at close
  provide them. One family of files is not
  read back: words of 18 bits or more and one to three samples that are all zero. The file is then
  so short that the first request for a width modifier already meets its end, and a reader gets no
  sample at all; for 16 to 24 bits and one read call this is exactly the failing family
  (`DwvwFile.WideFileLossless`). In several calls such words come back exactly if no call that asks
  for samples starts where less than a modifier is left of the file (`DwvwFile.WideFileCalls`).
  Words of 14 and 15 bits, which the library does not write, come back exactly if no sample starts
  there (`DwvwFile.NarrowFileCalls`); of three zero samples the last one does
  (`DwvwFile.SilenceTooLate`).
  The comment above the loop that closes a file speaks of eight zero samples; the code writes twelve.
- WAV IMA encoder and decoder stay in lockstep without conditions. Microsoft ADPCM does so exactly
  while the encoder's step stays at or below 32767, because the decoder keeps it in a `short`
  (`MsBlock.BlockLockstep`, an if and only if; `MsBlock.LoudBlockDiffers` is an eight-sample block
  where it does not). With four of the seven predictors, which a reader can tell from the block's
  first byte, it always does (`MsBlock.CalmBlockInStep`). The predictor choice reads channel 0 for
  every channel (`MsCode.StereoChoice`), as the code does and unlike its comment.
- Seeking a block coder to the very end of the file is accepted, but what follows is not the empty
  rest of the stream: a cleared block for WAV IMA, a block cleared in its first half for Microsoft
  ADPCM, the block decoded last for ALAC (`AdpcmFile.Adpcm.Seek`, `AlacReader.Reader.Seek`).
- An ALAC file comes back, blocks as the coder decodes them and frame count, and the samples
  themselves when they have no more bits than the coder keeps without loss, as long as its packet
  table fits two buffers; otherwise the table is not made, or is not what a reader finds
  (`AlacRoundTrip.RoundTrip`). The first buffer is that of `alac_pakt_encode`: two bytes a packet
  and a hundred more (`src/alac.cpp:942`), which a table of many three-byte sizes overruns;
  `AlacTable.RoomForEntries` is the exact condition, and 77 packets of 16 KiB are enough
  (`AlacTable.LongTableOverruns`). The second is the header: a table of more than 50 KiB is denied
  its room when the header is printed, and since `binheader_writef` then only returns early
  (`src/common.cpp:895-900`), the file announces a table that it does not hold
  (`CafWriter.WriteHeader`, `CafLayout.TableRoom`). A reader that does not give up before takes what
  lies there, the start of the data section, for the table (`CafReader.Caf.FindTable`). 25589
  packets of 128 bytes are the shortest such table of two-byte sizes
  (`AlacRoundTrip.LongTableDenied`), about 36 minutes at 48 kHz.
- In files of other writers, whose tables may be longer, the frame count is that of the stream
  exactly when table length times block length stays below 2^32 (`AlacReader.Reader.CalcFrames`);
  2^20 full blocks, a day of sound at 48 kHz, are miscounted (`AlacReader.DayMiscounted`).
- The last block of a two-channel ADPCM file is not filled up with silence: after each block the code
  clears as many entries as the block has frames, half of them, and what it completes the file with
  is what the block before left in the other half (`AdpcmRoundTrip.WriteAll`): nibbles for WAV IMA,
  samples for Microsoft ADPCM.
- The frame count the IMA writer sets at close is divided by the channels once too often for WAV
  files (`src/ima_adpcm.cpp:162`): for two channels it is half of what the file holds
  (`AdpcmFile.Adpcm.Close`, an if and only if).
- A header read that runs past the end of the file leaves the cache out of step with the physical
  position, so that a later, shorter read that lies within the file fails too
  (`Header.RetryFails`). A header can be printed that the parser refuses to read, because the parser
  wants one byte of the buffer free (`HeaderFormat.FullBuffer`); up to 16 bytes short of 50 KiB this
  cannot happen (`HeaderFormat.ShortFormatsFit`).
- When a block of bytes is denied by the header buffer is said by `HeaderFormat.BlockDenied`, an if
  and only if. The remainder field in front of an ALAC packet table is a whole block, not 0, when
  the last block is full (`AlacWriter.Writer.Close`).
- An OKI stream can count decoding errors on codes its own encoder chose, but only within 14 of the
  ends of the sample range (`OkiCode.EncoderErrors`, `OkiCode.OkiCountsAnError`); an IMA stream never
  does.
- A signal in which every channel stays where it is comes back from either ADPCM codec without error
  (`AdpcmLevel.LevelStream`), silence above all. The OKI coder turns silence into a swing between 32
  and 0, because its smallest move is a multiple of 16 (`OkiCode.Silence`).
- The portable float readers add a leading one to denormal numbers too, so that none is read as what
  it is (`Single.DenormalMisread`, `Double.DenormalMisread`); the writers make zeros of them.
- A string pair that would fill the CAF buffer to its last byte is dropped
  (`CafStrings.Fitting`), although the first of the two size tests lets it pass.
- An iterator asked for without a marker keeps the hash of an unfinished earlier search and then
  skips chunks (`ChunkIterator.VisitEvery`, `ChunkIterator.EveryChunk`; at three chunks,
  `ChunkIterator.UnfinishedSearch`). The hash of a marker of one or two characters depends on what
  lay on the stack (`ChunkIterator.HashOfShortMarker`).

## Model

| member | source | states |
|---|---|---|
| DwvwCode.FoldUnfold | src/dwvw.cpp:509-540 | Folding a difference into magnitude, sign and extra bit loses nothing: the decoder's sum and wrap find the sample again, also for differences beyond the largest delta. |
| DwvwCode.ModifierUndone | src/dwvw.cpp:545-550 | The width modifier is at most half the word width in size and the decoder's truncating remainder undoes it, for all pairs of widths. |
| DwvwCode.NextValid | src/dwvw.cpp:574-575 | Encoding keeps the carried sample within the word range and the carried width below the word width. |
| DwvwCode.FieldsUndone | src/dwvw.cpp:330-351 | The decoder's arithmetic on the fields of a codeword gives back sample and width. |
| DwvwCode.CodewordDecoded | src/dwvw.cpp:318-358 | A codeword at the head of any input is decoded to its sample, and precisely its bits are consumed. |
| DwvwCode.DecodeStepSafe | src/dwvw.cpp:318-358 | Whatever the bits are, one turn of the decoder keeps sample and width in range. |
| DwvwCode.DecodeSafe | src/dwvw.cpp:308-365 | Whatever the bytes are, every sample of a call and the state it leaves are in range. |
| DwvwCode.ThreeWords | src/dwvw.cpp:507-576 | Three words of four bits and their fifteen bits, with a width change that wraps, a difference that wraps and an extra bit. |
| DwvwFile.CodewordNonEmpty | src/dwvw.cpp:552-572 | Every sample costs at least one bit. |
| DwvwFile.EncodeConcat | src/dwvw.cpp:507-576 | Encoding in several calls gives the bits of one call on the joined samples. |
| DwvwFile.EncodedIsDecoded | src/dwvw.cpp:308-581 | Lossless: with half a word width less one of further bits behind them, encoded samples are decoded exactly, and the decoder ends in the encoder's state. |
| DwvwFile.EncodedIsDecodedAtEnd | src/dwvw.cpp:385-405 | For 16-bit words and wider a single further bit is enough, since the zero padding at the end of input stands in for the rest; the decoder ends in the encoder's state, with the bits left that are not code. |
| DwvwFile.CallSizesIrrelevant | src/dwvw.cpp:308-365 | However decode calls cut the samples, the joined results are the samples encoded. |
| DwvwFile.CloseFlushes | src/dwvw.cpp:130-153 | After close the file holds every bit of every real sample and at least five more. |
| DwvwFile.NarrowFileLossless | src/dwvw.cpp:130-153 | A closed file of words up to 13 bits is read back exactly for any call sizes. |
| DwvwFile.NarrowCalls | src/dwvw.cpp:308-365 | Words of up to 15 bits in any calls: all samples come back if each of them starts with a whole modifier left of the input, and fewer if one does not. |
| DwvwFile.NarrowFileCalls | src/dwvw.cpp:130-153 | The same for a closed file, in terms of its length; with words of up to 13 bits every sample starts in time. |
| DwvwFile.SilenceTooLate | src/dwvw.cpp:130-153 | Three zero samples of 14 bits of which the third starts too late. |
| DwvwFile.WideFileLossless | src/dwvw.cpp:320-325 | A closed file of 16 to 24 bit words read in one call is exact if and only if it is not one of the too short ones, which give no sample. |
| DwvwFile.WideCalls | src/dwvw.cpp:318-358 | Words of 16 bits and wider in several calls: all samples come back if every call that asks for some starts with a whole modifier left of the input, and fewer if one does not. |
| DwvwFile.WideFileCalls | src/dwvw.cpp:320-325 | The same for a closed file, in terms of its length and the sizes of the calls. |
| DwvwFile.SoundLength | src/dwvw.cpp:552-572 | A file with a sample that is not zero has at least four bits of real code. |
| Dwvw.HighestBit | src/dwvw.cpp:490-500 | The macro's loop counts the bits of a number. |
| Dwvw.Coder32.constructor | src/dwvw.cpp:78-128 | A fresh coder has stored nothing and would decode the whole file. |
| Dwvw.Coder32.TransferBytes | src/dwvw.cpp:448-455 | Moving whole bytes from the reservoir to the buffer keeps the bit string of file, buffer and reservoir and leaves fewer than eight bits. |
| Dwvw.Coder32.StoreBits | src/dwvw.cpp:439-464 | The bit string of file, buffer and reservoir grows by exactly the low bits of the datum; the buffer never overflows. |
| Dwvw.Coder32.Fold | src/dwvw.cpp:509-540 | The branches compute the specified folding, with C's remainder. |
| Dwvw.Coder32.ChooseModifier | src/dwvw.cpp:545-550 | The branches compute the specified modifier. |
| Dwvw.Coder32.EncodeWord | src/dwvw.cpp:507-576 | One turn appends one codeword to the stored bits and moves to the next coder state. |
| Dwvw.Coder32.StoreModifier | src/dwvw.cpp:552-561 | Zeros, the closing one below the limit, and the sign bit are appended. |
| Dwvw.Coder32.StoreDelta | src/dwvw.cpp:563-572 | Magnitude without its top bit, sign and extra bit are appended. |
| Dwvw.Coder32.EncodeData | src/dwvw.cpp:502-581 | A call appends the code of all its words, counts them and leaves the specified state. |
| Dwvw.Coder32.Close | src/dwvw.cpp:130-153 | Twelve zero samples are coded and the rest of the buffer is written: the file is a closed file of the samples. |
| Dwvw.Coder32.SeekStart | src/dwvw.cpp:155-176 | The one seek a reader allows puts it back to the whole file and the start state. |
| Dwvw.Coder32.Refill | src/dwvw.cpp:387-391 | Reading the next 256 bytes changes nothing the decoder can still reach. |
| Dwvw.Coder32.LoadByte | src/dwvw.cpp:397-404 | One byte of input, or a zero byte at its end, enters the reservoir. |
| Dwvw.Coder32.LoadReservoir | src/dwvw.cpp:384-405 | The reservoir reaches the request, or a request below eight bits meets the end; loading terminates in either case. |
| Dwvw.Coder32.LoadBits | src/dwvw.cpp:367-413 | The next bits of the input are taken as a number, -1 at its end. |
| Dwvw.Coder32.LoadModifierBits | src/dwvw.cpp:375-424 | Leading zeros up to the limit are counted and the one that closes them is dropped. |
| Dwvw.Coder32.TakeBit | src/dwvw.cpp:418-419 | The next bit of the input is taken from the reservoir. |
| Dwvw.Coder32.LoadDelta | src/dwvw.cpp:332-343 | Top bit, field, sign and extra bit are put together as specified, also from failed loads. |
| Dwvw.Coder32.DecodeTurn | src/dwvw.cpp:318-352 | One turn of the loop is one step of the specified decoder. |
| Dwvw.Coder32.DecodeRest | src/dwvw.cpp:326-351 | The turn after its modifier is the specified one. |
| Dwvw.Coder32.DecodeData | src/dwvw.cpp:308-365 | A call stores the specified samples, left-justified, and leaves the specified state and input. |
| DwvwRoundTrip.RoundTrip | src/dwvw.cpp:186-240 | Samples written by any calls come out each less its remainder by the word's lowest bit: for words of up to 13 bits from any read calls, for 14 and 15 bits if and only if each sample starts in time, whatever the calls; for 16 to 24 bits if and only if no call starts too late, which for a single call means that the file is not one of the too short ones. |
| DwvwRoundTrip.WordBack | src/dwvw.cpp:509-509 | The word of a sample, justified again, is the sample less its remainder by the word's lowest bit, for negative samples too. |
| DwvwRoundTrip.SampleSurvives | src/dwvw.cpp:509-509 | A 32-bit sample survives exactly when the bits below its word are zero. |
| DwvwRoundTrip.WriteFile | src/dwvw.cpp:613-637 | Any write calls and close give a closed file of all samples. |
| DwvwRoundTrip.ReadFile | src/dwvw.cpp:216-240 | Any read calls deliver the decoded samples of the file in order. |
| ImaCode.QuantiserLockstep | src/ima_adpcm.cpp:535-571 | The decoder's shift-and-add on the nibble found by greedy search gives the encoder's own reconstruction and step index. |
| ImaCode.QuantiserBound | src/ima_adpcm.cpp:535-566 | For differences below two steps the reconstruction misses by at most an eighth of a step plus 2. |
| ImaCode.QuantiserSaturates | src/ima_adpcm.cpp:545-556 | All three bits are set if and only if the difference reaches step, half step and quarter step together. |
| ImaCode.Advance | src/ima_adpcm.cpp:483-506 | The decoder's step keeps sample and step index valid. |
| ImaCode.ClampNearest | src/ima_adpcm.cpp:89-97 | The clamp gives the nearest valid step index. |
| ImaCode.IndexMoves | src/ima_adpcm.cpp:45-50 | Codes below 4 shorten the step by one entry, the others lengthen it by two for each quarter; the sign does not matter. |
| ImaCode.StepsGrow | src/ima_adpcm.cpp:52-60 | From 7 to 32767, each step is larger than the one before, and but for the last one by a tenth, to within 0.8. |
| ImaCode.LevelKept | src/ima_adpcm.cpp:535-571 | At the least step a sample like the one before is reconstructed without error and the step stays. |
| ImaBlock.SlotInverse | src/ima_adpcm.cpp:574-594 | The place of a sample's nibble is decoded back to that sample. |
| ImaBlock.ByteInverse | src/ima_adpcm.cpp:450-473 | Every half of every byte behind the header is the place of one sample: the two loops are inverse permutations. |
| ImaBlock.EncoderCausal | src/ima_adpcm.cpp:529-572 | The encoder's state after a sample depends on no sample behind it. |
| ImaBlock.BlockLockstep | src/ima_adpcm.cpp:416-606 | In a block just encoded, the decoder's state at every sample equals the encoder's after coding it. |
| ImaBlock.ChannelsApart | src/ima_adpcm.cpp:529-572 | Either channel of two is coded as it would be alone. |
| ImaBlock.WaveBlock | src/ima_adpcm.cpp:512-606 | Nine samples of one channel and their block, byte for byte. |
| ImaBlock.WaveBeside | src/ima_adpcm.cpp:574-594 | The same beside a level channel: the codes of a channel fill four bytes. |
| ImaBlock.StrayIndex | src/ima_adpcm.cpp:440-441 | A step index behind the table's end is read as the last one. |
| Ima.Quantise | src/ima_adpcm.cpp:535-569 | The mask loop finds the specified nibble and reconstruction. |
| Ima.EncodeHeader | src/ima_adpcm.cpp:517-527 | First samples and step indices go into the header and become the encoder's state. |
| Ima.EncodeSamples | src/ima_adpcm.cpp:529-572 | In place, every sample becomes the nibble specified for it. |
| Ima.PackFour | src/ima_adpcm.cpp:583-591 | Four bytes of one channel hold their eight nibbles, low half first. |
| Ima.PackNibbles | src/ima_adpcm.cpp:574-594 | Every byte behind the header holds the two nibbles its place says, for one and two channels. |
| Ima.EncodeBlock | src/ima_adpcm.cpp:512-606 | The block's bytes are the specified ones and the step indices to carry on are returned. |
| Ima.UnpackFour | src/ima_adpcm.cpp:462-470 | Eight sample positions of one channel receive the nibbles of four bytes. |
| Ima.UnpackNibbles | src/ima_adpcm.cpp:450-473 | Every sample position receives the nibble of its place. |
| Ima.DecodeHeader | src/ima_adpcm.cpp:433-448 | Sign-extended predictors and clamped step indices are taken from the header. |
| Ima.Expand | src/ima_adpcm.cpp:483-504 | One nibble advances sample and step index as specified. |
| Ima.DecodeSamples | src/ima_adpcm.cpp:475-507 | In place, every nibble becomes the specified sample. |
| Ima.DecodeBlock | src/ima_adpcm.cpp:416-510 | The samples of the block are the specified ones. |
| MsCode.StepLockstep | src/ms_adpcm.cpp:291-310 | One step: decoder and encoder meet if and only if the encoder's new step is at most 32767. |
| MsCode.StepFits | src/ms_adpcm.cpp:554-580 | A step outgrows 16 bits only where a sample misses its prediction by more than 65535. |
| MsCode.CheapestIsFirstLeast | src/ms_adpcm.cpp:837-870 | The predictor chosen is the first of least cost. |
| MsCode.StereoCost | src/ms_adpcm.cpp:843-849 | Of two channels, the cost of a predictor is that for the left one alone. |
| MsCode.StereoChoice | src/ms_adpcm.cpp:837-870 | And so are predictor and step. |
| MsCode.LineChoice | src/ms_adpcm.cpp:843-869 | Five samples on a line cost nothing, with predictor 0 if and only if they rise or fall by less than 4 each, and take the least step. |
| MsCode.StereoWitness | src/ms_adpcm.cpp:843-869 | A block of two channels with its costs, predictor and step. |
| MsCode.Factors | src/ms_adpcm.cpp:43-46 | The step is multiplied by 0.9 for errors of up to three steps and by 1.2, 1.6, 2, 2.4 and 3 from there on, for either sign. |
| MsCode.LevelKept | src/ms_adpcm.cpp:554-580 | A level is kept by predictor 0 at the least step. |
| MsCode.BestDeltaFits | src/ms_adpcm.cpp:849-869 | The step chosen for a block is between 16 and 32767. |
| MsBlock.FramesPerBlock | src/ms_adpcm.cpp:104-188 | The two formulas for frames in a block agree with two samples a byte behind the header, for every block with a whole header. |
| MsBlock.BlockLockstep | src/ms_adpcm.cpp:205-655 | Decoding an encoded block reproduces the encoder's samples and steps up to sample k if and only if all steps up to k fit 16 bits. |
| MsBlock.CalmStepsFit | src/ms_adpcm.cpp:535-580 | With predictor 0, 2, 3 or 4 all steps of a block fit 16 bits, whatever the samples. |
| MsBlock.CalmBlockInStep | src/ms_adpcm.cpp:205-655 | A block whose header names one of these is decoded as the encoder reconstructed it. |
| MsBlock.LoudBlockDiffers | src/ms_adpcm.cpp:293-293 | A block of eight samples where the step does not fit and the decoder clips at 32767 what the encoder reconstructed as 29441. |
| MsBlock.StereoBlock | src/ms_adpcm.cpp:527-655 | A block of two channels, byte for byte. |
| MsBlock.StrayPredictor | src/ms_adpcm.cpp:190-203 | A predictor that is none of the seven is read as the first. |
| Ms.TrialCost | src/ms_adpcm.cpp:843-849 | The three trial errors are summed and averaged as specified. |
| Ms.ChooseForChannel | src/ms_adpcm.cpp:839-869 | One channel's loop ends with the first predictor of least cost and its step. |
| Ms.ChoosePredictor | src/ms_adpcm.cpp:833-873 | The trial loop, with its early exit on cost 0, chooses the specified predictor and step. |
| Ms.EncodeHeader | src/ms_adpcm.cpp:535-606 | The header bytes of both layouts are the specified ones. |
| Ms.CodeSample | src/ms_adpcm.cpp:554-580 | One sample yields the specified nibble, reconstruction and step. |
| Ms.EncodeSamples | src/ms_adpcm.cpp:550-642 | In place, samples become the encoder's reconstruction and the bytes hold the specified nibbles. |
| Ms.EncodeBlock | src/ms_adpcm.cpp:527-655 | The block's bytes are the specified ones. |
| Ms.DecodeHeader | src/ms_adpcm.cpp:230-258 | Predictors, steps and first two frames are taken from the header of either layout. |
| Ms.UnpackNibbles | src/ms_adpcm.cpp:275-281 | Every sample position receives its nibble, high nibble first. |
| Ms.ExpandSample | src/ms_adpcm.cpp:289-310 | One nibble yields the specified sample and 16-bit step. |
| Ms.DecodeSamples | src/ms_adpcm.cpp:283-311 | In place, every nibble becomes the specified sample, with the step stored to 16 bits. |
| Ms.DecodeBlock | src/ms_adpcm.cpp:205-314 | The samples of the block are the specified ones. |
| AdpcmStream.BlockRoundTrip | src/ima_adpcm.cpp:416-606 | For either coder a block decodes to what the encoder reconstructed. |
| AdpcmStream.ImaRoundTrip | src/ima_adpcm.cpp:416-606 | For WAV IMA a block decodes to what the encoder reconstructed, without conditions. |
| AdpcmStream.MsRoundTrip | src/ms_adpcm.cpp:205-655 | For Microsoft ADPCM a block decodes to what the encoder reconstructed, while its steps fit 16 bits. |
| AdpcmStream.StreamRoundTrip | src/ima_adpcm.cpp:512-606 | Over any run of blocks, with carried step indices, the file decodes to what the encoder reconstructed. |
| AdpcmStream.ImaCausal | src/ima_adpcm.cpp:512-606 | Over a run of blocks, what the IMA encoder reconstructs of the first samples does not depend on those behind. |
| AdpcmStream.StreamSplit | src/ima_adpcm.cpp:906-929 | Cutting a sample stream anywhere and prepending the leftover to the second part gives the same blocks. |
| AdpcmStream.ResidueSplit | src/ima_adpcm.cpp:601-605 | What the blocks of a stream leave in the buffer of samples does not depend on where the stream was cut. |
| AdpcmStream.MsLeftBehind | src/ms_adpcm.cpp:649-649 | What a block of two channels leaves in the buffer: zeros in its first half, the encoder's samples in the second. |
| AdpcmStream.ImaLeftBehind | src/ima_adpcm.cpp:601-601 | The same for IMA, whose second half keeps the codes. |
| AdpcmLevel.LevelBlock | src/ima_adpcm.cpp:512-606 | A block of a signal in which every channel stays where it is is reconstructed without error by either coder, and a fresh encoder is as fresh after it. |
| AdpcmLevel.LevelStream | src/ima_adpcm.cpp:906-929 | So is a run of blocks of it. |
| AdpcmStream.SkipBlocks | src/ima_adpcm.cpp:805-853 | Skipping whole blocks of the file skips whole blocks of samples. |
| AdpcmFile.Adpcm.Writer | src/ima_adpcm.cpp:855-904 | A fresh writer holds no pending samples. |
| AdpcmFile.Adpcm.EncodeBlock | src/ima_adpcm.cpp:596-605 | One block is appended to the file, the carried state moves on, nothing is pending, and the buffer holds zeros and behind them the second half of what the block left there: nibbles for IMA, reconstructed samples for Microsoft. |
| AdpcmFile.Adpcm.CopyIn | src/ima_adpcm.cpp:912-921 | As many samples as the block still takes, or all there are, become pending; behind them the buffer is as it was. |
| AdpcmFile.Adpcm.WriteBlock | src/ima_adpcm.cpp:906-929 | The file gains the whole blocks of pending and new samples together, the rest stays pending: call sizes do not matter, not even for what the buffer holds behind it. |
| AdpcmFile.Adpcm.Close | src/ima_adpcm.cpp:147-166 | A started block is completed with what the buffer holds, silence for one channel, and written. The frame count the IMA codec then sets is that of the file if and only if there is one channel or no block. |
| AdpcmFile.Adpcm.Reader | src/ima_adpcm.cpp:168-248 | A fresh reader will deliver the decoded file. |
| AdpcmFile.Adpcm.DecodeBlock | src/ima_adpcm.cpp:416-448 | The next block's samples are in front of the decoded rest; past the last block the buffer is cleared, for the Microsoft codec its first half only. |
| AdpcmFile.Adpcm.CopyOut | src/ima_adpcm.cpp:623-630 | As many samples as the block still has, or as are asked for, are the next of the stream. |
| AdpcmFile.Adpcm.ReadBlock | src/ima_adpcm.cpp:608-634 | A read delivers the next samples of the decoded stream, zeros past its end, and leaves the rest. |
| AdpcmFile.Adpcm.StartBlock | src/ms_adpcm.cpp:499-508 | After decoding a block and moving into it, the stream goes on behind the skipped samples. |
| AdpcmFile.Adpcm.Seek | src/ms_adpcm.cpp:469-517 | A seek in range makes the decoded stream go on at that frame, if and only if the frame lies before the end; out of range nothing changes. |
| AdpcmRoundTrip.WriteAll | src/ms_adpcm.cpp:657-813 | Any sequence of write calls, then close, leaves the blocks of the joined samples and of what fills up the last one: what the block before left in the buffer there. |
| AdpcmRoundTrip.MonoPadding | src/ima_adpcm.cpp:601 | For one channel that is silence. |
| AdpcmRoundTrip.ReadAll | src/ms_adpcm.cpp:316-343 | Any sequence of read calls delivers the decoded stream in order. |
| AdpcmRoundTrip.RoundTrip | src/ima_adpcm.cpp:147-929 | However writes and reads are cut, every sample written comes back as the encoder reconstructed it, the last block included, while the steps fit 16 bits, those of the filled-up last block included; for the IMA codec always, and as if silence had followed. Silence comes back as it was, and so does a signal in which every channel stays where it is, unless the last Microsoft block is filled up. |
| OkiCode.EncoderDistance | src/ima_oki_adpcm.cpp:101-115 | The code's distance overshoots the difference by at most an eighth of a step and, below two steps, falls short by little more. |
| OkiCode.EncoderErrors | src/ima_oki_adpcm.cpp:82-92 | IMA coding never counts an error; OKI coding does not for samples at least 14 from the ends of the range. |
| OkiCode.EncoderErrorsExactly | src/ima_oki_adpcm.cpp:82-92 | An error is counted if and only if the chosen distance exceeds the headroom on the sample's side by more than the grace. |
| OkiCode.EncoderBound | src/ima_oki_adpcm.cpp:101-118 | Below two steps the output misses by at most an eighth of a step plus 1 (IMA) or 13 (OKI). |
| OkiCode.EncoderSaturates | src/ima_oki_adpcm.cpp:113-114 | All three bits are set if and only if the difference is at least seven quarters of a step. |
| OkiCode.Lockstep | src/ima_oki_adpcm.cpp:71-118 | A decoder fed the encoder's bytes passes through the encoder's own states. |
| OkiCode.StreamErrors | src/ima_oki_adpcm.cpp:101-118 | Over whole streams: no errors for IMA, none for OKI away from the ends of the range. |
| OkiCode.OkiCountsAnError | src/ima_oki_adpcm.cpp:82-92 | Seven samples after which the OKI encoder has counted an error of its own. |
| OkiCode.NextIndexMoves | src/ima_oki_adpcm.cpp:94-95 | Codes of a magnitude below 4 shorten the step by one entry, the others lengthen it by 2 to 8, within the table. |
| OkiCode.OkiStepsGrow | src/ima_oki_adpcm.cpp:45-50 | From 256 to 24832, each OKI step is a tenth larger than the one before, to within 0.8 of 16. |
| OkiCode.OkiBytes | src/ima_oki_adpcm.cpp:104-150 | Four samples and their two bytes, the earlier code in the high half, and a step that shortens again. |
| OkiCode.Silence | src/ima_oki_adpcm.cpp:80-150 | Silence is coded as silence with the IMA steps; with the OKI steps the output swings between 32 and 0. |
| Oki.Coder.constructor | src/ima_oki_adpcm.cpp:53-69 | The state starts at zero for either kind. |
| Oki.Coder.Decode | src/ima_oki_adpcm.cpp:71-99 | The branches compute the specified next state and output. |
| Oki.Coder.Encode | src/ima_oki_adpcm.cpp:101-118 | The code is the specified one and the state moves on by decoding it. |
| Oki.Coder.EncodeBlock | src/ima_oki_adpcm.cpp:135-158 | An odd block is extended by a zero; the bytes hold the codes of all samples, high nibble first. |
| Oki.Coder.DecodeBlock | src/ima_oki_adpcm.cpp:120-133 | Every nibble's output is stored, though the low nibble is passed on as a whole byte. |
| Oki.RoundTrip | src/ima_oki_adpcm.cpp:120-158 | A second coder in the same state decodes a block to the first one's outputs, ends in its state and, for IMA, counts no error. |
| AlacTable.TableRoundTrip | src/alac.cpp:855-994 | Parsing the padded chunk gives back the sizes, up to and including a size of 0, and one 0 more exactly where padding was added. |
| AlacTable.NonZeroTableRoundTrip | src/chunk.cpp:257-267 | For sizes that are not 0 nothing is lost: the sizes, and a 0 if and only if the chunk was padded. |
| AlacTable.GroupsBack | src/alac.cpp:904-923 | The seven-bit groups of a size are scanned back to it, ending behind their last byte. |
| AlacTable.FourSizes | src/alac.cpp:947-990 | A size of each length and the bytes of its entry. |
| AlacTable.HeaderFields | src/alac.cpp:946-948 | The fields in front of the table hold the packet count, the frame count, 0, and a block less the frames of the last partial one. |
| AlacTable.RoomForEntries | src/alac.cpp:942-944 | The table fits its buffer if and only if the bytes that its entries take beyond two each add up to at most 76. |
| AlacTable.LongTableOverruns | src/alac.cpp:942-992 | 76 packets of 16 KiB fit, 77 are written past the buffer. |
| AlacTable.PacketTable.Alloc | src/alac.cpp:821-834 | An empty table with room for the given number of sizes. |
| AlacTable.PacketTable.Append | src/alac.cpp:836-853 | The table grows by the value, keeps what it held and never exceeds its allocation. |
| AlacTable.PacketTable.NextPacketSize | src/alac.cpp:402-407 | Sizes in order, then 0 for good. |
| AlacTable.PacketTable.BlockOffset | src/alac.cpp:996-1005 | The sum of the sizes in front of a packet. |
| AlacTable.PacketTable.Encode | src/alac.cpp:932-994 | Into an array of 100 bytes and two a packet: header and groups of every size; no table if and only if a size needs more than 28 bits and those before it fit; an overrun if and only if these do not. |
| AlacTable.StoreGroups | src/alac.cpp:957-987 | The four branches store the seven-bit groups of a size, as far as the buffer reaches. |
| AlacTable.PacketTable.ReadDecode | src/alac.cpp:855-930 | The table holds what parsing the chunk means, whatever lies in the bytes behind the chunk. |
| AlacTable.ReadGroups | src/alac.cpp:904-920 | The inner loop finds the specified value and length, or 0 for an overlong or cut off one. |
| AlacStream.SumOfLengths | src/alac.cpp:474-489 | The sizes in the table add up to the bytes of the packets. |
| AlacWriter.Writer.constructor | src/alac.cpp:336-396 | A fresh writer has recorded nothing. |
| AlacWriter.Writer.EncodeBlock | src/alac.cpp:474-489 | The gathered block's packet goes to the temporary file and its size to the table. |
| AlacWriter.Writer.CopyIn | src/alac.cpp:727-738 | As many samples as the block still takes, or all there are, become pending. |
| AlacWriter.Writer.Write | src/alac.cpp:717-747 | Coded blocks and pending samples together are everything written, every coded block is full, and the pending part is shorter than a block. |
| AlacWriter.Writer.Close | src/alac.cpp:176-220 | The blocks cut everything written into full blocks and a last one; table chunk and data are those of their packets, unless the table overruns its buffer, with the exact condition. Frames plus the header's remainder make up the packets if and only if the last block is a partial one. |
| AlacPlay.SkipBlocks | src/alac.cpp:660-669 | In a well-formed file block j begins at frame j times block length of the stream. |
| AlacPlay.StreamLength | src/alac.cpp:425-434 | The stream is as long as all full blocks and the last one. |
| AlacPlay.LongestPacket | src/alac.cpp:443-461 | A packet is played if and only if it is not empty, at most 1 MiB long and within the file. |
| AlacReader.Reader.Open | src/alac.cpp:252-334 | A fresh reader will deliver the whole stream; its frame count is right if and only if table length times block length is below 2^32. |
| AlacReader.Reader.DecodeBlock | src/alac.cpp:437-472 | A packet that is in the table, fits the buffer and lies in the file is decoded and the position moves past it; any other leaves block and position alone. |
| AlacReader.Reader.NextInStream | src/alac.cpp:437-472 | As a step of the stream: the block and what follows it, or nothing more. |
| AlacReader.Reader.StaysInStep | src/alac.cpp:437-472 | With a table that describes the file, the input position equals data offset plus the sum of the sizes so far, before and after every decode. |
| AlacReader.Reader.Read | src/alac.cpp:527-557 | A read delivers the next samples of the stream, as many as are left, for any file and any call sizes. |
| AlacReader.Reader.CopyOut | src/alac.cpp:543-553 | As many samples as the block still has, or as are asked for, are the next of the stream. |
| AlacReader.Reader.Seek | src/alac.cpp:629-683 | A position is refused if and only if it is negative or behind the table's blocks, counted in 32 bits; in a well-formed file that this does not overflow, every frame before the end can be sought and the stream goes on there; past the packets the block decoded last stays. |
| AlacReader.Reader.BeforeTheEnd | src/alac.cpp:654-661 | Every frame of such a file lies inside the packets. |
| AlacReader.Reader.StartBlock | src/alac.cpp:663-669 | After a seek to a packet the rest of its block and all packets behind it are ahead, or the old block if it cannot be decoded. |
| AlacReader.Reader.SeekLands | src/alac.cpp:660-679 | The rest of a block and the blocks behind it are the stream from that frame on. |
| AlacReader.Reader.CountBlocks | src/alac.cpp:409-423 | The loop counts the packets, with or without a final 0. |
| AlacReader.Reader.LastBlock | src/alac.cpp:430-432 | The frames added are those of the last block, or none when the seek was refused. |
| AlacReader.Reader.CalcFrames | src/alac.cpp:409-435 | The count is the length of the stream if and only if the 32-bit product does not overflow. |
| AlacReader.SilentStream | src/alac.cpp:409-435 | 2^20 packets of one byte, each a full block, make a stream of 2^32 frames. |
| AlacReader.DayMiscounted | src/alac.cpp:409-435 | Opening the file that holds them finds another frame count. |
| AlacReader.Products | src/alac.cpp:428-428 | How the wrapped products of the frame count and of the seek relate, overflow included. |
| AlacRoundTrip.CutUnique | src/alac.cpp:717-747 | There is one way to cut a sample stream into blocks: how it was split into write calls leaves no trace. |
| AlacRoundTrip.PacketInFile | src/alac.cpp:226-231 | Every packet lies in the file where the table puts it. |
| AlacRoundTrip.WholeStream | src/alac.cpp:437-472 | What a written file streams is its decoded packets in order. |
| AlacRoundTrip.WrittenIsRegular | src/alac.cpp:192-194 | With a coder that keeps frame counts, the file consists of full blocks and a last one. |
| AlacRoundTrip.SameLength | src/alac.cpp:409-435 | With such a coder as many samples come out as went in. |
| AlacRoundTrip.WriteFile | src/alac.cpp:176-220 | Any write calls and close give the packets of the one cut, and a table that parses to their sizes if and only if it fits its buffer. |
| AlacRoundTrip.WrittenTable | src/alac.cpp:855-994 | The padded table of packets that hold something parses to their sizes, begins with their number and that of the frames, is as long as header and entries rounded up to four, and its first byte is 0. |
| AlacRoundTrip.LongTableDenied | src/caf.cpp:780-783 | 25588 packets of 128 bytes make a table that the header takes, 25589 one of which it takes marker and size only. |
| AlacRoundTrip.OpenFile | src/caf.cpp:349-606 | Opening a written file finds the table as it was written, the packets where they begin, the frame count in the table and the strings, if the table is at most 50 KiB long; a longer one is never found. |
| AlacRoundTrip.PlayFile | src/alac.cpp:252-557 | With its table back, a file gives its decoded blocks in order, the samples themselves where they have no more bits than the coder keeps, and the number of frames. |
| AlacRoundTrip.SaveFile | src/alac.cpp:176-238 | The writer's half: write calls, close, header, packets and header again leave a file whose table says what it holds and is as long as header and entries rounded up to four. |
| AlacRoundTrip.LoadFile | src/alac.cpp:252-557 | The reader's half: header, table and read calls on such a file give its blocks, and the samples themselves where they have no more bits than the coder keeps. |
| AlacRoundTrip.FieldsBack | src/caf.cpp:532-533 | The frame count read from the table is the number of frames written, and the strings stored are those set in front, as far as they fitted. |
| AlacRoundTrip.ReadAll | src/alac.cpp:527-557 | Any sequence of read calls delivers the stream in order. |
| AlacRoundTrip.RoundTrip | src/alac.cpp:176-747 | Whole journey, header included: the table is made unless it overruns its buffer; the reader finds it if and only if it is at most 50 KiB long; then the decoded blocks come back in order, the samples themselves where they have no more bits than the coder keeps, the frame count, the one in the table, and the strings set in front. |
| AlacRaw.RawKeepsFrames | src/ALAC/alac_encoder.c:957-984 | A coder that stores samples uncompressed is a valid one and keeps frame counts, for any channels and one to four bytes a sample. |
| AlacRaw.RawIsLossless | src/ALAC/alac_encoder.c:957-984 | And it loses nothing of samples that have no more bits than it stores. |
| AlacRaw.Journey | src/alac.cpp:176-747 | With that coder, up to 38 blocks of samples in any write calls come back from any read calls, and their number, without further conditions. |
| Endian.BigEndianBack | src/sfendian.h:203-219 | Reading big-endian bytes gives back the number modulo the width. |
| Endian.LittleEndianBack | src/sfendian.h:221-237 | Reading little-endian bytes gives back the number modulo the width. |
| Endian.EndianReversed | src/common.cpp:635-699 | The two orders are reversals of each other. |
| Endian.EndianDigits | src/common.cpp:628-710 | The byte at place k from the low end is the digit of weight 256 to the k. |
| Endian.FromEndianDigits | src/common.cpp:1178-1250 | And counts that much in what is read. |
| HeaderRoom.LowRunFits | src/common.cpp:180-211 | A run that stays within the file and the first 25 KiB is granted all its growth. |
| HeaderRoom.ReadAgain | src/common.cpp:1075-1094 | In any granted run, a seek back over what was just read makes the next read deliver the same bytes again. |
| HeaderRoom.ReadOn | src/common.cpp:1059-1073 | Behind an absolute seek, two reads deliver the bytes of the file there in two pieces. |
| HeaderRoom.SkipIsRead | src/common.cpp:1075-1112 | A seek forward passes over bytes as a read of them would. |
| Header.HeaderBuffer.constructor | src/common.cpp:47-55 | A fresh buffer of 256 bytes is coherent with any file. |
| Header.HeaderBuffer.Bump | src/common.cpp:180-211 | Growth is denied exactly above 100 KiB; granted, what was asked for fits behind the index, old bytes stay and new ones are zero. |
| Header.HeaderBuffer.MakeRoom | src/common.cpp:1010-1011 | The test in front of every access leaves room or denies, and keeps the cache coherent. |
| Header.HeaderBuffer.ReadAhead | src/common.cpp:1015-1016 | The bytes of the file behind the cache extend it, as far as there are any. |
| Header.HeaderBuffer.Fill | src/common.cpp:1013-1022 | The cache reaches the target, or a short read moves the physical position to the end of the file unnoticed. |
| Header.HeaderBuffer.Read | src/common.cpp:1006-1028 | A granted read within the file delivers its bytes at the logical position and keeps the cache coherent; past the end it delivers nothing and is coherent after it only if the cache already reached the end. |
| Header.HeaderBuffer.SeekSet | src/common.cpp:1059-1073 | The cache stays coherent if and only if the target fits the buffer and the file. |
| Header.HeaderBuffer.SeekCur | src/common.cpp:1075-1112 | Within the cache of a buffer that is not full a move goes just where it says; beyond, it stops at the end of the file; in front of its start, or past a full buffer, it is ignored or leaves the cache out of step. |
| Header.Run | src/common.cpp:1006-1115 | Every run of seeks and reads that is granted its room and stays in the file delivers the file's bytes at the logical positions. |
| Header.RunOne | src/common.cpp:992-1112 | One operation of a run that is granted its room delivers the bytes of the file and moves as specified. |
| Header.RetryFails | src/common.cpp:1013-1022 | After a read past the end of the file, a shorter one within the file but not the cache fails as well. |
| HeaderFormat.ParsedBack | src/common.cpp:1117-1294 | Every kind of item is parsed from its printed bytes, to the value its argument type holds. |
| HeaderFormat.KeptAsIs | src/common.cpp:1172-1250 | What is kept of an item is the item itself if and only if its type can hold it. |
| HeaderFormat.PrintedFormat | src/common.cpp:735-900 | A format with letters of every kind, byte for byte. |
| HeaderFormat.ShortFormatsFit | src/common.cpp:715-717 | Formats that end 16 bytes short of half a cap are granted their room by printer and parser, in a buffer that stays below that cap; with the cap of the code, up to 50 KiB. |
| HeaderFormat.SmallFormatsFit | src/common.cpp:715-717 | In a buffer that may still double, or reaches far enough, letters of up to eight bytes are granted anywhere, and leave it so. |
| HeaderFormat.FullBuffer | src/common.cpp:895-907 | Two blocks of 50 KiB can be printed but not parsed. |
| HeaderFormat.BlockDenied | src/common.cpp:895-900 | A block is denied if and only if the buffer is crowded and longer than 50 KiB, or the block does not fit behind the index and it or the buffer is longer than 50 KiB. |
| HeaderPrint.PutByte | src/common.cpp:608-611 | One byte is appended. |
| HeaderPrint.PutBig | src/common.cpp:635-687 | The low bytes of a number are appended, highest first. |
| HeaderPrint.PutLittle | src/common.cpp:623-699 | The low bytes of a number are appended, lowest first; markers too. |
| HeaderPrint.PutBlock | src/common.cpp:897-907 | A raw block is appended whole, or denied exactly when its room is. |
| HeaderPrint.WriteItem | src/common.cpp:713-912 | One format letter appends its bytes under the current order, or is denied exactly when its room is. |
| HeaderPrint.Writef | src/common.cpp:701-959 | The format is printed up to the first item whose room is denied; the count says how much, and the buffer's length and byte order are those the items up to there leave. |
| HeaderPrint.ReadField | src/common.cpp:1135-1267 | A letter whose item is next in the file, and whose room is granted, yields the item's value. |
| HeaderPrint.Readf | src/common.cpp:1117-1294 | A format whose items are next in the file yields all their values and stands behind them, with the buffer grown as the items say. |
| HeaderPrint.RoundTrip | src/common.cpp:701-1294 | What was printed is parsed back with the same format, always up to 16 bytes short of 50 KiB and beyond unless room is denied. |
| CafLayout.TableRoom | src/common.cpp:895-900 | Behind a short front the packet table is granted its room if and only if it is at most 50 KiB long; either way there is room for what follows. |
| CafLayout.PrintPiece | src/caf.cpp:780-783 | The two 32-bit numbers the writer prints are the 64-bit size the reader asks for. |
| CafLayout.PrintStrings | src/caf.cpp:1034-1035 | The writer's format for strings prints them as a chunk like any other. |
| CafLayout.PrintMap | src/caf.cpp:776-777 | So does the one for a channel map. |
| CafLayout.PrintMapRead | src/caf.cpp:845-846 | The reader's format takes the twelve bytes of a channel map. |
| CafLayout.PrintFileRead | src/caf.cpp:367-643 | Writer and reader print and expect the same start of the file with formats of their own. |
| CafLayout.PieceInFile | src/caf.cpp:779-783 | Each chunk lies in the file where those before it end. |
| CafLayout.DataInFile | src/caf.cpp:794-803 | The data section and the packets lie behind the last chunk. |
| CafLayout.HeadWritten | src/caf.cpp:640-720 | The first 52 bytes of a file, byte for byte. |
| CafLayout.ChunkMarkers | src/caf.cpp:49-62 | The markers of packet table, data and channel map spell their names. |
| CafLayout.SkipRoom | src/common.cpp:1075-1105 | Skipping a short chunk, or a granted table, is granted its room and leaves room for what follows. |
| CafWriter.WriteHead | src/caf.cpp:640-760 | Start of the file and description are printed. |
| CafWriter.WritePiece | src/caf.cpp:780-783 | A chunk in front is printed whole; the table whole or, if it is longer than 50 KiB, its marker and size only. |
| CafWriter.WriteLead | src/caf.cpp:762-777 | Strings and channel map are printed where there are any, as chunks in front of the custom ones. |
| CafWriter.WritePieces | src/caf.cpp:779-783 | The loop prints all custom chunks in order behind those printed already, the table last. |
| CafWriter.WriteHeader | src/caf.cpp:608-807 | The header is the specified bytes, and the buffer is left fit for printing it again. |
| CafWriter.WriteFile | src/caf.cpp:219-229 | The file is the header with the length of the packets, the packets, and a byte that makes its length even: printing the header again overwrites precisely the first one. |
| CafReader.Get | src/common.cpp:1117-1294 | A format of small letters that is next in the file is read whole, and the cache ends behind it. |
| CafReader.Skip | src/common.cpp:1075-1105 | A chunk that is skipped is left behind, and the cache ends there. |
| CafReader.Caf.ReadHead | src/caf.cpp:364-404 | A written start is accepted: format, frames in a packet and channels are those of the description. |
| CafReader.Caf.ChannelMap | src/caf.cpp:839-869 | A channel map of twelve bytes is read and left behind. |
| CafReader.Caf.Info | src/caf.cpp:547-563 | Strings are read, stored behind those stored before, and left behind. |
| CafReader.Caf.Table | src/caf.cpp:519-545 | The four fields of a packet table are read and the rest is skipped. |
| CafReader.Caf.Data | src/caf.cpp:483-511 | Offset and length of the data section, less the four bytes of its edit count, are taken and the position moves to its end. |
| CafReader.Caf.Handle | src/caf.cpp:428-582 | The switch: strings, channel maps and chunks of other names are passed over, a packet table and a data section are read; each branch changes only what is its own. |
| CafReader.Caf.Announce | src/caf.cpp:408-426 | The next chunk's marker and size are read and the chunk is listed with its place, unless its size is longer than the file. |
| CafReader.Caf.Treat | src/caf.cpp:428-596 | The switch and the tests that end the loop behind it. |
| CafReader.Caf.NextChunk | src/caf.cpp:406-596 | One turn of the loop, for each kind of chunk, with the tests that end it. |
| CafReader.Caf.Turn | src/caf.cpp:406-596 | On a written file turn k handles chunk k: the chunks are listed in order, the table behind those in front, and the data section ends the loop. |
| CafReader.Caf.ReadHeader | src/caf.cpp:349-606 | A written file whose table was granted is opened with the packets where they begin; whenever opening a written file succeeds, the first packet table listed is the one announced. |
| CafReader.Caf.Locate | src/chunk.cpp:40-88 | The search by name finds the packet table that was listed first. |
| CafReader.Caf.Finish | src/alac.cpp:894-895 | Iterating to the end clears the iterator. |
| CafReader.Caf.FindTable | src/alac.cpp:855-895 | The bytes found are the table that was written if it was granted; otherwise they begin with those of the data section. |
| CafStrings.AllFitting | src/caf.cpp:957-972 | All pairs are kept if and only if they take less than the whole buffer. |
| CafStrings.ScanPair | src/caf.cpp:897-945 | Where a pair lies the scan takes it, empty values included, and stands behind it. |
| CafStrings.PairsRoundTrip | src/caf.cpp:882-972 | The scan yields exactly the pairs that were kept, in order, and ends at the end of the chunk. |
| CafStrings.TagBack | src/caf.cpp:869-940 | The hash of every key the writer uses selects the same tag in the reader's switch. |
| CafStrings.CommentsHash | src/caf.cpp:922-926 | The key of other writers for comments selects the same tag. |
| CafInfo.PutBuffer.PutKeyValue | src/caf.cpp:957-972 | A pair is appended if it leaves the last byte free; otherwise the contents stay. |
| CafInfo.WriteStrings | src/caf.cpp:974-1036 | The chunk holds the pairs of one location that fit, with their number and size; without pairs there is no chunk. |
| CafInfo.StrLen | src/caf.cpp:899-942 | The loop finds the distance to the next zero byte. |
| CafInfo.NextPair | src/caf.cpp:897-942 | One turn of the reader's loop takes the next pair of the scan, and the key always advances. |
| CafInfo.ReadStrings | src/caf.cpp:882-949 | What is stored is the values of the known keys of the scan, in order. |
| CafInfo.ReadInfo | src/caf.cpp:411-567 | A printed chunk at the logical position is accepted and its strings are stored: marker, size less 4, number and pairs are read with formats of the reader's own. |
| CafInfo.ReadBody | src/caf.cpp:882-949 | The number of pairs and their bytes are read and what they say is stored; the reader stands behind them. |
| CafInfo.SplitFormat | src/caf.cpp:1034-1035 | The writer's one format prints the bytes the reader's two formats expect. |
| CafInfo.KnownByTag | src/caf.cpp:905-940 | Pairs under the library's keys are all stored, each under its tag. |
| CafInfo.LookupFirst | src/strings.cpp:179-186 | A lookup finds the text of the first entry with the tag, and nothing if and only if there is none. |
| CafInfo.OtherPlaces | src/caf.cpp:987-988 | Strings for another place in the file stay out of the chunk. |
| CafInfo.TaggedOneMore | src/caf.cpp:982-991 | An entry adds a pair if and only if it is for that place: its key and the text found for its tag. |
| CafInfo.FittingOneMore | src/caf.cpp:952-969 | Each pair is kept if and only if it leaves a byte free behind those kept before it, whatever was dropped. |
| CafInfo.PlainStrings | src/caf.cpp:971-1036 | Distinct tags whose texts take less than the whole buffer are all kept, each with its own text, in order. |
| CafInfo.TitleChunk | src/caf.cpp:1034-1035 | A chunk with one title, byte for byte. |
| CafInfo.RoundTrip | src/caf.cpp:882-1036 | Strings set, printed into a header, parsed and scanned come back with tag and text, as far as they fitted. |
| ChunkIterator.MatchesIncrease | src/chunk.cpp:90-112 | The indices visited are increasing. |
| ChunkIterator.MatchesComplete | src/chunk.cpp:90-112 | Every chunk with the hash is visited. |
| ChunkIterator.MatchWanted | src/chunk.cpp:90-112 | Only chunks with the hash are visited. |
| ChunkIterator.MatchesExactly | src/chunk.cpp:90-113 | So for a hash that is not 0 the matches are exactly the chunks with it, in order. |
| ChunkIterator.HashOfMarker | src/chunk.cpp:162-176 | From three characters on the hash is that of the marker alone. |
| ChunkIterator.HashOfShortMarker | src/chunk.cpp:162-176 | That of one character takes in two bytes of the stack. |
| ChunkIterator.HashOfLongMarker | src/chunk.cpp:29-38 | A marker of five characters and its hash by the factor 127. |
| ChunkIterator.ChunkList.Store | src/chunk.cpp:114-143 | A chunk is added behind all earlier ones, which stay, through growth. |
| ChunkIterator.ChunkList.Find | src/chunk.cpp:162-181 | The first chunk with the hash, or none if there is none. |
| ChunkIterator.ChunkList.Get | src/chunk.cpp:40-88 | The iterator stands on the first match; without a marker it stands on the first chunk and keeps its hash. The two hashes of a short marker may differ. |
| ChunkIterator.ChunkList.Next | src/chunk.cpp:90-112 | On to the next match, or cleared when there is none. |
| ChunkIterator.VisitAll | src/chunk.cpp:40-112 | Get and repeated next visit exactly the matching indices in order, then the iterator is cleared, for markers whose two hashes agree. |
| ChunkIterator.VisitEvery | src/chunk.cpp:40-112 | Without a marker the first chunk and then the matches of the old hash are visited. |
| ChunkIterator.EveryChunk | src/chunk.cpp:90-112 | So all are visited if and only if the rest all match. |
| ChunkIterator.UnfinishedSearch | src/chunk.cpp:90-112 | At three chunks of different names an unfinished search for the second makes the visit of all chunks end with it. |
| Dyadic.FrexpUnique | src/float32.cpp:334-336 | The mantissa and exponent of frexp are the only ones with a mantissa in [1/2, 1). |
| Single.WriteBig | src/float32.cpp:355-389 | The buffer holds the specified four bytes. |
| Single.WriteLittle | src/float32.cpp:319-353 | The buffer holds the same bytes reversed. |
| Single.WrittenIsCode | src/float32.cpp:355-389 | A normal number is written as sign, exponent plus 127 and fraction, unless it is below 1e-30 in size. |
| Single.CodeIsRead | src/float32.cpp:263-289 | The bytes of such a code are read as the number it stands for. |
| Single.SingleRoundTrip | src/float32.cpp:263-389 | A normal single survives exactly if it is at least 1e-30 in size. |
| Single.LittleIsReversed | src/float32.cpp:291-317 | The little-endian reader on reversed bytes is the big-endian one. |
| Single.TinyIsZero | src/float32.cpp:271-272 | A number below 1e-30 in size, 0 or a denormal one among them, is written as zero bytes and read as 0. |
| Single.ZeroRead | src/float32.cpp:261-272 | Only the two zeros of the format are read as 0. |
| Single.DenormalMisread | src/float32.cpp:274-275 | A denormal code is read with a leading one and an exponent of 0, never as the number it stands for. |
| Single.OneAndMinusSixAndAHalf | src/float32.cpp:261-400 | Two numbers and their bytes. |
| Double.WriteBig | src/double64.cpp:359-398 | The buffer holds the specified eight bytes. |
| Double.WriteLittle | src/double64.cpp:400-439 | The buffer holds the same bytes reversed. |
| Double.PutBig | src/double64.cpp:366-396 | Sign, exponent and both mantissa parts are or-ed into cleared bytes as specified. |
| Double.PutLittle | src/double64.cpp:407-437 | Sign, exponent and both mantissa parts are or-ed into cleared bytes, low byte first. |
| Double.WrittenIsCode | src/double64.cpp:359-398 | A normal number is written as sign, exponent plus 1023 and fraction, unless it is below 1e-30 in size. |
| Double.CodeIsRead | src/double64.cpp:293-324 | The bytes of such a code are read as the number it stands for. |
| Double.DoubleRoundTrip | src/double64.cpp:293-439 | A normal double survives exactly if it is at least 1e-30 in size. |
| Double.LittleIsReversed | src/double64.cpp:326-357 | The little-endian reader on reversed bytes is the big-endian one. |
| Double.TinyIsZero | src/double64.cpp:305-306 | A number below 1e-30 in size, 0 or a denormal one among them, is written as zero bytes and read as 0. |
| Double.ZeroRead | src/double64.cpp:293-306 | Only the two zeros of the format are read as 0. |
| Double.DenormalMisread | src/double64.cpp:308-311 | A denormal code is read with a leading one, never as the number it stands for. |
| Double.OneAndMinusSixAndAHalf | src/double64.cpp:293-324 | Two numbers and their bytes. |
| SampleRate.ExtendedForm | src/aiff.cpp:1781-1815 | The exponent is 16383 plus that of the highest bit, and the mantissa is the number with that bit in front. |
| SampleRate.RateRoundTrip | src/aiff.cpp:1758-1815 | What is read is what was written if and only if the rate is from 1 to 2^30 - 1; 0 is read as 1 and larger ones as 800000000. |
| SampleRate.CompactDisc | src/aiff.cpp:1781-1815 | The rate 44100 and its bytes. |
| SampleRate.OddRates | src/aiff.cpp:1758-1780 | Negative numbers are read as 0, those below 1 as 1 and those beyond the exponents of a rate as 2^26. |
| SampleRate.Put | src/aiff.cpp:1781-1815 | The buffer holds the specified bytes, the rest of it unchanged. |
| SampleRate.FirstBit | src/aiff.cpp:1799-1806 | The mask walks down to the highest set bit. |
| Bits.CDivision | src/dwvw.cpp:513-514 | C's quotient and remainder belong together, and the remainder has the sign of the dividend. |
| Bits.StoresWrap | src/ms_adpcm.cpp:291-294 | A store changes a value by whole turns of its type, and not at all if it fits. |
| Pcm.ClampNearest | src/ima_adpcm.cpp:494-498 | The clamp gives the nearest 16-bit value. |

## Left out

- DWVW, ADPCM and ALAC read and write functions for shorts, floats and doubles: conversion loops around the int functions modelled here.
- Single calls of more than 0x10000000 items.
- WAV IMA blocks of fewer than seven bytes a channel, for which the writer allocates too little (`src/ima_adpcm.cpp:866-876`); the library's own block sizes are larger.
- AIFF IMA: its encoder and decoder use different block layouts.
- AdpcmFile.Adpcm.Reader: data that ends inside a block, which the code completes with what its buffer still holds.
- ADPCM of more than two channels, and writing Microsoft blocks of fewer than five frames, where the predictor choice reads behind the block.
- AlacRoundTrip.RoundTrip: the header in front of the packet table is taken to be at most 25 KiB long, and the custom chunks to have names the reader does not know; strings behind the packets are left out. Peak chunks need no place here: only float files have them (`src/sndfile2k.cpp:2016-2020`).
- CafWriter.WriteFile: the header printed at open, which the one printed at close overwrites, is left out; the header buffer may be left by it at any length of up to 50 KiB.
- CafReader.Caf.ReadHeader: takes a number of turns, because the loop over chunks need not move forward on other files; for written ones the number of chunks is enough.
- CafReader.Caf.Data: nothing is promised for a section that does not end with the file, beyond memory safety.
- CafReader.Caf.Handle: neither for `info` and `chan` chunks that are not as the library writes them, nor for `peak` chunks.
- CafReader.Caf.NextChunk: the same.
- CafInfo.ReadInfo: nothing is promised for chunks that are not as the library writes them, beyond memory safety.
- AlacWriter.Writer.Close: the cookie chunk that goes in front of the table is one of the custom chunks of the header.
- Running out of memory.
- The ALAC block coder itself, its cookie chunk, and the copying of the temporary file in pieces.
- ALAC tables of 4 GiB, seeks in write mode, and seeks before the data section is known.
- HeaderPrint.Writef: the letters t, T, f, d, s, S, p, z, h, j and o are not modelled.
- HeaderPrint.WriteItem: the same letters.
- HeaderFormat.ParsedBack: a one-byte field is given as a number from 0 to 255; the code reads it into a `char`, which some platforms sign-extend when it is used as a number.
- HeaderPrint.ReadField: the same letters as for Readf, and nothing is promised for other bytes.
- HeaderPrint.Readf: the letters f, d, h and G are not modelled; nothing is promised when the file holds other bytes or room is denied, beyond memory safety; the number returned then is not the number of bytes read.
- Header.HeaderBuffer.SeekSet: positions before the start of the file, which the code does not guard against.
- The header cache of files that do not start at offset 0 of their stream.
- Infinities and NaNs in the float formats, and the host's rounding: on the other numbers every operation is exact.
- The arrays of float conversions, peak chunks and capability probes around the four float formats.
- SampleRate.Put: rates of 0 and from 2^30 on are written as the code does, but come back as 1 and 800000000.
- The text of unknown CAF keys, which is only logged, and characters beyond ASCII in keys.
- Chunk iterators over write chunks, and growth of the write chunk list.
- Containers, open and close dispatch, the meaning of channel maps, instrument data, dither, A-law and the remaining codecs: independent of what is modelled here.
- Streams, temporary files on disk and logging: a file is a byte sequence with a position.
