# A verified model of the SDK below the demo

The demo application rests on an SDK whose parts are small but intricate. This project models
them in Dafny and proves what they are meant for. Each part is modelled in the form its source
has: code that works on state in place is a class or a method with loops, proved against
functions on values, and the laws are proved about those functions.

* **Decompression** (`Words`, `Memory`, `XzBuffers`, `RangeCoder`, `LzmaSymbols`, `LzmaLocality`,
  `Dictionary`, `RangeDecoder`, `Lzma2Reference`, `LzmaDecoder`, `Lzma2Decoder`, `Lzma2Laws`,
  `RangeEncoder`, `LzmaPackets`, `Lzma2Writer`, `BootDecompress`, `Bcj`, `Crc32`, `Vli`, `XzIndex`,
  `XzStream`). `Lzma2Reference` is a one-shot
  decoder of a whole stream, without a circular buffer, limits, or a split of the input. The
  resumable decoder, with its circular dictionary, range decoder, 63-byte carry-over buffer and
  chunk state machine, agrees with it on every stream and every way of cutting input and output
  into calls; the boot loader's block-wise use of it follows. A writer of LZMA2 streams, with its own
  range encoder, packets and chunks, is read back by it. The ARM-Thumb filter behind it
  delivers the filter applied once to the whole. The .xz Index and footer are accepted exactly
  when they fit the Blocks.
* **Update that survives power cuts** (`NorFlash`, `Fdcm`, `FdcmCut`, `Ota`, `ImageSections`, `ImageCheck`,
  `OtaDownload`, `Bootloader`). A configuration log on NOR flash, on which programming clears bits and may be
  cut off half way; the protocol of two image slots on top of it; the download into a slot, the
  check of its sections and the cache of section addresses.
* **eFuse programming** (`Efuse`): versioned slots and a hash with two correctable bits, on bits
  that may be stuck.
* **JSON** (`Bits`, `Cjson`, `CjsonGrammar`, `CjsonLayout`, `CjsonPrinter`, `CjsonBuffer`, `CjsonParser`): a parser
  and a printer on values, the loops of cJSON proved against them, the round trip, and the grammar
  of the texts that the parser accepts.
* **Device suspend and resume** (`IntrusiveList`, `PmCycle`, `Pm`) over linked lists on the heap, for
  every answer that drivers, hooks and tests can give.
* **Console buffers** (`Console`): hand-over of command lines from an interrupt to a task, for any
  number of buffers and any interleaving.

`dafny verify dfyconfig.toml` checks everything.

## Where the code and what is said about it differ

* The comment on the input margin (`src/xz/xz_dec_lzma2.c:19-26`) counts 22 modelled and 26 direct
  bits. Distance slots 12 and 13 take 23 modelled bits and no direct ones. The bound of 20 bytes
  holds nevertheless (`SymbolConsumesAtMostTwentyBytes`).
* `xz_dec_lzma2_reset` does not set `need_props` (`src/xz/xz_dec_lzma2.c:1159-1164`). It has no
  effect (`StaleStateIsUnused`).
* `fdcm_rewrite` cuts the bitmap size to 16 bits before it caps it (`src/image/fdcm.c:96-99`). The
  exact condition for a rewrite that can be read back is `ReadableUnlessCut`.
* After a power cut between the header and the first bit of a new area, `fdcm_read` computes
  `bit_cnt - 1` from 0 (`src/image/fdcm.c:218-219`). For records that are larger than the bitmap it
  then reads the header or in front of the area (`CutsAreReadIff`, `LongRecord`).
* A header that is cut off half way may leave a bitmap size for which every later `fdcm_write` fails
  and none starts a new area (`src/image/fdcm.c:258-269`). `NeverSticksIff` says for which sizes. The
  32 KiB of the image configurations (`project/image_cfg/xr809/image.cfg:4`) are one
  (`ShippedAreaCanStick`); 4 KiB are not.
* The update survives power cuts just in areas of the other sizes (`RunsGoRightIff`); in one that is
  stuck the application may take itself to be in the wrong slot (`RunningSeqIff`, `StuckRun`).
* `ota_verify_image` checks only that something has been downloaded (`src/ota/ota.c:633`), and
  `ota_get_image` may be called again afterwards. The exact conditions under which this is safe are
  `VerifyIsSafeIff` and `UpdateIsSafeIff`, and `FailedDownload` and `SecondDownload` are runs in which
  it is not; a careful caller keeps to them.
* A write of an eFuse value that fails may take the old value with it (`OldValueLost`).
* `image_get_addr` goes on from the last cached section on the device of the image, even when that
  section is the boot loader (`src/image/image.c:324-332`). Its answers are right just when both
  are on the same device (`RightJustOnSameDevice`).
* The section check sums through a buffer, which must be of even size to be right
  (`PiecesAreWholeIff`); the documentation asks only for room for a header. The SDK uses 1024 bytes.
* A section that passes the section check passes the boot loader's check of its body if and only if
  its tailer adds nothing to the sum (`LoadsIff`); `RefusedIsWhole` is one that does not. So a slot
  that is complete need not load, and the protocol does not assume that it does.
* `suspend_devices_and_enter` drops the result of `suspend_enter` (`src/pm/pm.c:747`), so that a
  refusal with interrupts off ends in no error.
* `dpm_suspend_noirq` breaks off at a device that comes back with interrupts on, but without an error
  (`src/pm/pm.c:475-481`), so that the system goes to sleep with that device and all behind it not
  suspended. `AllAsleepIff` says when, `AsleepUnprepared` is a case.
* `parse_string` accepts a string whose closing quote is missing (`src/cjson/cJSON.c:504-520,662-664`).
  The model does the same.
* `pm_register_ops` refuses a driver with only one of the noirq callbacks after it has put the
  device on the normal list (`src/pm/pm.c:807-834`). `Register` says so.

## Model

| member | source | states |
|---|---|---|
| RangeCoder.AdaptIsExact | src/xz/xz_dec_lzma2.c:497-515 | [31, 2017] is the smallest interval around one half that an adaptive probability never leaves: an interval around 1024 is closed under adaptation if and only if it contains it |
| RangeCoder.Bound | src/xz/xz_dec_lzma2.c:497-505 | both parts that a modelled bit splits the range into are at least 31 * 2^13 and at least a 67th of it, so the bound lies strictly between 0 and the range |
| RangeCoder.Normalize | src/xz/xz_dec_lzma2.c:478-484 | one byte always brings the range back to at least 2^24 |
| RangeCoder.BitKeepsCodeBelowRange | src/xz/xz_dec_lzma2.c:478-515 | from code < range, a modelled bit and a normalisation end with code < range, for all probabilities and input |
| RangeCoder.DirectIsCompareSubtract | src/xz/xz_dec_lzma2.c:553-565 | from code < range the branch-free direct bit is "compare with half the range, subtract"; it ends with code <= range, with equality exactly for an odd range and code == range - 1 |
| RangeCoder.DecodeTreeRange | src/xz/xz_dec_lzma2.c:519-531 | a bit tree of n levels below a node ends among the 2^n leaves below that node |
| RangeCoder.TwentyBytesSuffice | src/xz/xz_dec_lzma2.c:19-26 | 20 bytes pay for 22 modelled and 26 direct bits from any range a decoded bit can leave, measured by a potential that each bit lowers by a bounded factor |
| LzmaLocality.SymbolConsumesAtMostTwentyBytes | src/xz/xz_dec_lzma2.c:19-26 | for every input, state and probabilities one symbol consumes at most 20 bytes, and with the closing normalisation at most 21. Slots 12 and 13 use 23 modelled bits, one more than the comment says; that costs less than 26 direct bits |
| LzmaLocality.DecodeSymbolLocal | src/xz/xz_dec_lzma2.c:722-752 | decoding a symbol depends on the bytes it consumes alone: from two inputs that agree up to a limit, either both decodings stay within it and come out the same, or both go beyond it |
| LzmaLocality.StepLocal | src/xz/xz_dec_lzma2.c:722-758 | the same with the normalisations around the symbol, so that a decoder that normalises late and one that normalises early stay in step |
| LzmaLocality.NormalizedFirst | src/xz/xz_dec_lzma2.c:478-515 | normalising before a symbol changes nothing, since every bit normalises first |
| RangeDecoders.RangeDecoder.ResetProbs | src/xz/xz_dec_lzma2.c:767-790 | every probability becomes one half |
| RangeDecoders.RangeDecoder.ReadInit | src/xz/xz_dec_lzma2.c:449-460 | takes exactly the initial bytes there are, in however many calls; the code is made of all that were taken |
| RangeDecoders.RangeDecoder.Normalise | src/xz/xz_dec_lzma2.c:478-484 | is the normalisation of the value-level coder, reading inside the input |
| RangeDecoders.RangeDecoder.Bit | src/xz/xz_dec_lzma2.c:497-515 | is the value-level modelled bit: bit, registers, adapted probability, position |
| RangeDecoders.RangeDecoder.Tree | src/xz/xz_dec_lzma2.c:519-531 | the loop up to a limit is the value-level tree of log2(limit) levels |
| RangeDecoders.RangeDecoder.MatchedTree | src/xz/xz_dec_lzma2.c:594-611 | the loop with offset and match bit is the recursive choice between two trees until the bits first differ from the match byte |
| RangeDecoders.RangeDecoder.ReverseTree | src/xz/xz_dec_lzma2.c:535-550 | the loop that adds shifted bits to dest computes the value of the reverse tree |
| RangeDecoders.RangeDecoder.Direct | src/xz/xz_dec_lzma2.c:553-565 | the 32-bit mask arithmetic computes the value-level direct bits, and no shifted result overflows |
| RangeDecoders.MaskForm | src/xz/xz_dec_lzma2.c:553-565 | masking with the sign of the wrapped difference is adding half the range back just when the bit is 0 |
| Dictionaries.WindowByte | src/xz/xz_dec_lzma2.c:320-328 | in a circular window of the last bytes of a history, the byte at a distance below full is that byte of the history, however often the position went round |
| Dictionaries.Dictionary.constructor | src/xz/xz_dec_lzma2.c:1132-1167 | a new dictionary in multi-call mode represents the empty history |
| Dictionaries.Dictionary.Reset | src/xz/xz_dec_lzma2.c:286-297 | a reset starts an empty history |
| Dictionaries.Dictionary.SetLimit | src/xz/xz_dec_lzma2.c:300-306 | re-establishes pos <= limit <= end, with room for at most outMax bytes and for at least one if outMax > 0 |
| Dictionaries.Dictionary.Get | src/xz/xz_dec_lzma2.c:320-328 | the byte dist + 1 from the end of the unbounded history, for every dist < full; 0 in an empty dictionary |
| Dictionaries.Dictionary.Put | src/xz/xz_dec_lzma2.c:333-339 | appends one byte to the history, keeping start <= pos <= full <= end |
| Dictionaries.Dictionary.Repeat | src/xz/xz_dec_lzma2.c:346-371 | fails exactly when the distance is not below min(history, size); otherwise appends min(len, room) bytes of the overlapping copy, across any number of wrap-arounds, and leaves the rest in len |
| Dictionaries.Dictionary.CopyUncompressed | src/xz/xz_dec_lzma2.c:374-409 | moves min(left, input, room) bytes unchanged from input to output and appends the same bytes to the history, though pos may pass limit on the way |
| Dictionaries.Dictionary.Flush | src/xz/xz_dec_lzma2.c:416-431 | writes exactly the part of the history that is new since the last flush, in order and nothing else, and leaves pos < end |
| LzmaDecoders.LzmaDecoder.LiteralProbs | src/xz/xz_dec_lzma2.c:572-578 | the masks on the circular position choose the coder of the unbounded position, inside the table |
| LzmaDecoders.LzmaDecoder.Literal | src/xz/xz_dec_lzma2.c:581-616 | a literal, matched or not, appends the byte that the value-level decoder gives and updates the state the same way |
| LzmaDecoders.LzmaDecoder.Len | src/xz/xz_dec_lzma2.c:619-643 | is the value-level length, between 2 and 273 |
| LzmaDecoders.LzmaDecoder.Match | src/xz/xz_dec_lzma2.c:646-682 | distance and length of a match, the four last distances moved along |
| LzmaDecoders.LzmaDecoder.RepMatch | src/xz/xz_dec_lzma2.c:688-719 | is the value-level repeated match, of which WhichReads says that it repeats the distance with the index that the bits choose, and moves it to the front of the last four |
| LzmaPackets.WhichReads | src/xz/xz_dec_lzma2.c:688-719 | for the bits that choose index k, the k-th of the last four distances comes to the front and the others stay in their order; a short repeat leaves all as they are |
| LzmaPackets.LenReads | src/xz/xz_dec_lzma2.c:619-643 | every length from 2 to 273, written as its choice bits and the leaf of its tree, is decoded again |
| LzmaPackets.DistanceReads | src/xz/xz_dec_lzma2.c:658-681 | every 32-bit distance, written as the slot of its two highest bits, and below them modelled, direct and aligned bits, is decoded again |
| LzmaPackets.LiteralReads | src/xz/xz_dec_lzma2.c:581-616 | every byte is decoded again, from the coder of its position and the byte before it; behind a match, from the contexts that the byte of the match picks as long as the bits agree |
| LzmaPackets.PacketReads | src/xz/xz_dec_lzma2.c:646-751 | every packet (literal, match, short repeat, repeat k) that is carried by the input is the symbol that is decoded, and the four last distances and the state are afterwards what the packet makes of them |
| LzmaPackets.RepeatCopies | src/xz/xz_dec_lzma2.c:346-371 | copying byte by byte from a distance repeats the last dist + 1 bytes over and over |
| LzmaContexts.OnePlace | src/xz/xz_dec_lzma2.c:112-212 | no two of the contexts of LZMA share a place in the flat table of probabilities |
| RangeEncoder.EncodedIsRead | src/xz/xz_dec_lzma2.c:478-565 | whatever choices a range encoder on whole numbers has encoded, modelled or direct, and whatever it has encoded behind them, the range decoder reads the same choices and adapts the same probabilities |
| RangeEncoder.EndTracks | src/xz/xz_dec_lzma2.c:472-475 | behind the last choice the decoder has read all bytes and its code is zero |
| LzmaWriter.PacketsAreSymbols | src/xz/xz_dec_lzma2.c:722-758 | any packets that a writer puts into a chunk are decoded, one symbol each, with their LZ77 effect on the history |
| Lzma2Writer.PropsBack | src/xz/xz_dec_lzma2.c:799-826 | every lc, lp and pb in range survives its byte |
| Lzma2Writer.StoredReads | src/xz/xz_dec_lzma2.c:1095-1101 | a stored chunk gives its data, with or without a dictionary reset |
| Lzma2Writer.ChunkReads | src/xz/xz_dec_lzma2.c:936-1103 | every chunk that can be written, stored or made of packets, with any of the resets, is decoded to what was written, and decoder and writer go on from the same state |
| Lzma2Writer.StreamReads | src/xz/xz_dec_lzma2.c:931-1106 | whatever chunks a writer puts into a stream, the one-shot decoder gives back their contents and ends at the last byte, whatever state an earlier Block has left |
| LzmaDecoders.LzmaDecoder.NextSymbol | src/xz/xz_dec_lzma2.c:737-751 | one pass of the loop, with 20 bytes of input: the symbol of the value-level decoder put into the history as far as it fits; afterwards a non-literal state or a pending match always has rep0 < full |
| LzmaDecoders.LzmaDecoder.FinishRepeat | src/xz/xz_dec_lzma2.c:726-731 | resuming a match never fails, and leaves what is owed to the history the same |
| LzmaDecoders.LzmaDecoder.LzmaMain | src/xz/xz_dec_lzma2.c:722-761 | the whole loop advances by exactly some number of symbols of the one-shot decoder, on its own input buffer; if it reads past the end of the chunk the one-shot decoder has failed there too; it makes progress whenever there is room |
| LzmaDecoders.LzmaDecoder.Reset | src/xz/xz_dec_lzma2.c:767-790 | ends in the fresh state, whatever was there before |
| LzmaDecoders.LzmaDecoder.SetProps | src/xz/xz_dec_lzma2.c:799-826 | the subtraction loops split the byte into lc, lp and pb exactly when lc + lp <= 4 and pb <= 4, and refuse it otherwise |
| LzmaDecoders.LzmaDecoder.SetInput | src/xz/xz_dec_lzma2.c:846-925 | attaching another input buffer leaves the decoder where the one-shot decoder is |
| Lzma2Reference.SymbolsAreSteps | src/xz/xz_dec_lzma2.c:722-761 | any number of symbols is a run of steps of the one-shot decoder, which fails where a symbol does |
| Lzma2Reference.StepIsLawful | src/xz/xz_dec_lzma2.c:936-1103 | every step of the one-shot decoder keeps: no LZMA chunk without dictionary reset and properties, sizes in range, header states consistent |
| Lzma2Decoders.Lzma2Decoder.constructor | src/xz/xz_dec_lzma2.c:1108-1167 | a reset decoder stands at the start of the one-shot decoder's run, with arbitrary leftovers of need_props |
| Lzma2Decoders.Lzma2Decoder.DecodeSymbols | src/xz/xz_dec_lzma2.c:877-886 | decoding from a buffer that agrees with the stream up to a point: all reads stay inside the buffer, and the one-shot decoder has taken the same symbols or found the chunk broken |
| Lzma2Decoders.Lzma2Decoder.FillTemp | src/xz/xz_dec_lzma2.c:852-872 | the 63-byte buffer gets min(42, chunk, input) bytes, keeps temp.size <= compressed, and is padded with zeros at the end of a chunk |
| Lzma2Decoders.Lzma2Decoder.DecodeFromTemp | src/xz/xz_dec_lzma2.c:852-892 | every read stays inside the 63 bytes, what was consumed of the caller's input is accounted for, and a chunk that was overrun is refused just when the one-shot decoder refuses it |
| Lzma2Decoders.Lzma2Decoder.DecodeFromInput | src/xz/xz_dec_lzma2.c:894-912 | every read stays inside the caller's buffer |
| Lzma2Decoders.Lzma2Decoder.KeepInput | src/xz/xz_dec_lzma2.c:914-922 | less than 21 bytes of the chunk are put by, and none beyond it |
| Lzma2Decoders.Lzma2Decoder.DecodeChunk | src/xz/xz_dec_lzma2.c:846-925 | the three parts together follow the one-shot decoder |
| Lzma2Decoders.Lzma2Decoder.ControlByte | src/xz/xz_dec_lzma2.c:938-1014 | chunk kinds, resets and errors of the control byte as in the one-shot decoder |
| Lzma2Decoders.Lzma2Decoder.SizeByte | src/xz/xz_dec_lzma2.c:1016-1038 | each size byte moves both decoders to the same next state |
| Lzma2Decoders.Lzma2Decoder.PropertiesByte | src/xz/xz_dec_lzma2.c:1040-1046 | bad properties are an error in both, good ones reset both |
| Lzma2Decoders.Lzma2Decoder.PrepareChunk | src/xz/xz_dec_lzma2.c:1048-1058 | the five initial bytes, split over any number of calls |
| Lzma2Decoders.Lzma2Decoder.RunChunk | src/xz/xz_dec_lzma2.c:1060-1093 | gives exactly the new bytes to the caller, and goes round again only after it has consumed input, given output or ended the chunk |
| Lzma2Decoders.Lzma2Decoder.EndChunk | src/xz/xz_dec_lzma2.c:1078-1084 | a chunk is accepted only with its compressed size used up, no match pending and the range coder at zero, as in the one-shot decoder |
| Lzma2Decoders.Lzma2Decoder.CopyChunk | src/xz/xz_dec_lzma2.c:1095-1101 | a stored chunk goes through unchanged, in any number of calls |
| Lzma2Decoders.Lzma2Decoder.Run | src/xz/xz_dec_lzma2.c:931-1106 | terminates; for every split of input and output over calls the output so far is the beginning of what the one-shot decoder makes of the whole stream; it ends exactly where that ends, with all of its output, and fails exactly where that fails; it waits only for input or room |
| Lzma2Decoders.Lzma2Decoder.WaitsForever | src/xz/xz_dec_lzma2.c:936-1105 | a decoder that has been given the whole stream and waits for more would wait forever: the one-shot decoder never ends either |
| Lzma2Laws.StepsGrow | src/xz/xz_dec_lzma2.c:931-1106 | output is only ever added, and nothing happens after the end or an error |
| Lzma2Laws.OneAnswer | src/xz/xz_dec_lzma2.c:931-1106 | of any two runs over the same stream one has a prefix of the other's output, and two finished runs agree on everything |
| Lzma2Laws.StaleStateIsUnused | src/xz/xz_dec_lzma2.c:970-1014 | what a Block finds left over from the one before (LZMA state, probabilities, need_props) never has any effect |
| Lzma2Laws.ResetsRemembered | src/xz/xz_dec_lzma2.c:970-1014 | need_dict_reset and need_props record exactly what has been seen: where the last dictionary reset was, and since then the last valid properties, which are those in use |
| Lzma2Laws.ChunksAreSafe | src/xz/xz_dec_lzma2.c:581-752 | before any symbol is decoded there was a dictionary reset and, after it, valid properties; in a non-literal state rep0 is below full, so match-byte lookups and resumed repeats use a valid distance |
| Lzma2Laws.ChunkKeepsSizes | src/xz/xz_dec_lzma2.c:1060-1093 | an accepted LZMA chunk has consumed exactly its declared compressed size and given exactly its declared uncompressed size, with the range coder at zero |
| Lzma2Laws.HeaderSteps | src/xz/xz_dec_lzma2.c:983-1046 | the sizes a chunk starts with are those in the five or six bytes of its header |
| Lzma2Laws.CutOffForever | src/xz/xz_dec_lzma2.c:936-1105 | a stream that breaks off inside a chunk or header never ends, however long one goes on |
| BootDecompress.DictSize | src/xz/xz_dec_lzma2.c:1132-1145 | the dictionary size for a properties byte up to 39 lies between 4 KiB and 3 GiB and is a multiple of 16, which the position masks rely on |
| BootDecompress.DictSizeDoubles | src/xz/xz_dec_lzma2.c:1132-1145 | the sizes start with 4 KiB and 6 KiB, and each is twice the one before the last |
| BootDecompress.DecodesToOne | project/bootloader/main.c:118-185 | a stream decodes to at most one output |
| BootDecompress.Decompress | project/bootloader/main.c:94-192 | for every block size the loop terminates, and succeeds exactly when the one-shot decoder makes something shorter than the room out of the whole body; that is then what lies at the load address |
| BootWritten.WrittenIsDecoded | project/bootloader/main.c:118-185 | what a writer has put into a stream is what the boot loader's decoding of it comes to |
| BootWritten.EverythingIsDecoded | project/bootloader/main.c:118-185 | for any bytes there is a stream that decodes to them |
| ArmThumb.FilterInverse | src/xz/xz_dec_bcj.c:288-312 | for every even start position the decoder's filter undoes the encoder's and the other way round: the opcode bits survive, so both scans stop at the same places |
| ArmThumb.FilterIsOneToOne | src/xz/xz_dec_bcj.c:288-312 | from an even position no two inputs have the same output |
| ArmThumb.OpcodeSurvives | src/xz/xz_dec_bcj.c:294-306 | the bits that the scan tests are not changed by the conversion |
| ArmThumb.CallIsBranchWithLink | src/xz/xz_dec_bcj.c:294-300 | the four bytes that are converted are the two halfwords 11110 and 11111 of a BL, with 11 bits of the distance each |
| ArmThumb.DecodedGoesToTarget | src/xz/xz_dec_bcj.c:299-306 | after decoding, a BL at address p branches to the address that it carried before, counted from p + 4 in halfwords and in 23 bits |
| ArmThumb.FilterSplits | src/xz/xz_dec_bcj.c:288-312 | the filter may be stopped at any place its scan comes by and taken up again there |
| ArmThumb.FilterWraps | src/xz/xz_dec_bcj.c:301 | the 32-bit position may wrap around |
| BcjDecoders.BcjDecoder.Scan | src/xz/xz_dec_bcj.c:288-312 | the loop over the buffer leaves exactly the filtered data, and stops less than four bytes before the end |
| BcjDecoders.BcjDecoder.Apply | src/xz/xz_dec_bcj.c:345-392 | applies the filter in place and advances the position by what was filtered |
| BcjDecoders.BcjDecoder.Flush | src/xz/xz_dec_bcj.c:399-410 | delivers min(filtered, room) bytes and keeps the rest in order |
| BcjDecoders.BcjDecoder.FillOutput | src/xz/xz_dec_bcj.c:449-480 | decodes and filters in the caller's buffer; what cannot be filtered yet goes back to temp |
| BcjDecoders.BcjDecoder.FillTemp | src/xz/xz_dec_bcj.c:490-522 | the same in the 16-byte buffer when the room is too small |
| BcjDecoders.BcjDecoder.Run | src/xz/xz_dec_bcj.c:417-525 | for every sequence of output sizes, what has been delivered after each call without error is a prefix of the filter applied once to the LZMA2 output, and at stream end all of it |
| BcjDecoders.BcjDecoder.PendingFits | src/xz/xz_dec_bcj.c:417-525 | filtered <= size <= 16 between calls, and fewer than four bytes wait unfiltered until the end of the stream |
| CrcRegister.TableIsShift8 | src/xz/xz_crc32.c:28-72 | each of the 256 table entries is eight steps of division by the reversed polynomial 0xEDB88320 |
| CrcRegister.TableStep | src/xz/xz_crc32.c:79-89 | one table look-up and shift is eight bits of the bitwise division, for every register and byte |
| CrcRegister.ShiftXor | src/xz/xz_crc32.c:79-89 | the division is linear |
| Crc32.XzCrc32 | src/xz/xz_crc32.c:79-89 | the table-driven loop computes the bitwise CRC-32 of every message |
| Crc32.CrcSplits | src/xz/xz_crc32.c:79-89 | the CRC of a message taken in two pieces is that of the whole |
| Crc32.ResidueIsConstant | src/xz/xz_crc32.c:79-89 | whatever the data, with its own CRC behind it the CRC is 0x2144DF1C |
| Crc32.CheckValue | src/xz/xz_crc32.c:79-89 | the CRC of the nine digits 123456789 is 0xCBF43926 |
| Vli.VliIsExact | src/xz/xz_dec_stream.c:186-215 | the decoder accepts exactly the shortest base-128 encodings of the integers below 2^63 and returns the encoded integer |
| Vli.EncodeIsOneToOne | src/xz/xz_dec_stream.c:186-215 | no two integers have the same encoding |
| Vli.VliSplits | src/xz/xz_dec_stream.c:186-215 | however the bytes are split over calls |
| Vli.VliDisjoint | src/xz/xz_dec_stream.c:198 | the bits decoded so far are below the place of the next ones, so that or-ing them in is adding them |
| XzStream.XzDec.constructor | src/xz/xz_dec_stream.c:842-852 | starts before the Index with no Blocks recorded |
| XzStream.XzDec.DecVli | src/xz/xz_dec_stream.c:186-215 | the loop over the input is the value-level decoder on the bytes it takes, and stops at the end of input with the same partial value |
| XzIndex.IndexSplits | src/xz/xz_dec_stream.c:314-358 | the byte machine of Index and footer goes the same way however its input is split |
| XzIndex.TailIsExact | src/xz/xz_dec_stream.c:314-467 | Index and footer are accepted exactly when they are the encoding (count, Records, zero padding, CRC32, footer with Backward Size and check type; section 4 of the .xz file format) of some Records that agree with the decoded Blocks in number and hash |
| XzIndex.StreamTailIsExact | src/xz/xz_dec_stream.c:697-744 | the same from the byte that tells the Index from a Block |
| XzIndex.HashSums | src/xz/xz_dec_stream.c:340-353 | the size fields of the running hash are the sums of all sizes modulo 2^64 |
| XzIndex.HashAppend | src/xz/xz_dec_stream.c:275-292 | recording a Block extends the hash as a Record does |
| XzIndex.AcceptedSums | src/xz/xz_dec_stream.c:334-335 | stream end implies as many Records as Blocks, and both size sums equal modulo 2^64 |
| XzIndex.FooterExact | src/xz/xz_dec_stream.c:443-467 | the footer checks accept exactly the one footer that fits the Index |
| XzStream.XzDec.BlockDone | src/xz/xz_dec_stream.c:275-292 | adds the sizes of a Block to the recorded hash |
| XzStream.XzDec.IndexUpdate | src/xz/xz_dec_stream.c:299-305 | size and CRC32 accumulated piecewise are those of the contiguous bytes |
| XzStream.XzDec.DecIndex | src/xz/xz_dec_stream.c:314-358 | stays in the place of the byte machine, whatever input each call gets |
| XzStream.XzDec.IndexPadding | src/xz/xz_dec_stream.c:706-726 | only zeros pass, up to a multiple of four, and then the hashes must agree |
| XzStream.XzDec.CrcValidate | src/xz/xz_dec_stream.c:365-383 | compares byte by byte over any number of calls |
| XzStream.XzDec.FillTemp | src/xz/xz_dec_stream.c:168-183 | collects input until there is as much as is wanted |
| XzStream.XzDec.DecStreamFooter | src/xz/xz_dec_stream.c:443-467 | accepts exactly a footer with magic, CRC32, Backward Size and flags in order |
| XzStream.XzDec.DecMain | src/xz/xz_dec_stream.c:697-744 | from the Index on, for every split of the input: waiting, stream end and error are those of the byte machine on all bytes so far |
| NorFlash.ProgramClears | src/image/fdcm.c:117-130 | bit by bit: what programming leaves set is what was set in the flash and is set in the data; no bit becomes set, and no other byte changes |
| NorFlash.Flash.EraseArea | src/image/fdcm.c:112-114 | an erased area is all ones, and the rest of the device is unchanged |
| NorFlash.Completed | src/image/fdcm.c:112-130 | a series of operations that is not cut off is one of the ways it may come out |
| FdcmArea.CountOfBitmap | src/image/fdcm.c:55-77 | counting gives back the number of records of every bitmap that the log writes |
| FdcmArea.WriteThenRead | src/image/fdcm.c:172-308 | a write that succeeds is read back, in every area that the log left or was given, and leaves the area in order |
| FdcmArea.LastWrittenIsRead | src/image/fdcm.c:172-308 | after any sequence of successful writes of any sizes, the last data is read with the last size |
| FdcmArea.RecordsLandOnBlank | src/image/fdcm.c:86-132 | in every write the data goes to erased flash, inside the area |
| FdcmArea.FullAtCapacity | src/image/fdcm.c:286-288 | between erasures exactly min(8 * bitmap, room / size) records fit: the area counts as full at that number and not before |
| FdcmArea.ErasedAtCapacityOnly | src/image/fdcm.c:233-308 | any number m of records of one size in an area that holds none yet: all writes succeed, and the area is erased ceil(m / capacity) times |
| FdcmArea.BitmapIsNotTheBound | src/image/fdcm.c:96-99 | a bitmap size that is not capped always leaves the room as the only bound |
| FdcmArea.ReadableUnlessCut | src/image/fdcm.c:96-99 | a rewrite can be read back if and only if the bitmap size, cut to 16 bits before it is capped, is not 0 |
| FdcmArea.CutIsUnreadable | src/image/fdcm.c:192-203 | with bitmap size 0 the log does not accept its own header |
| FdcmArea.CutExample | src/image/fdcm.c:96-99 | an area and a record size for which that happens |
| FdcmCut.CutIsSane | src/image/fdcm.c:234-308 | wherever the power goes off during a write, bits of an operation half cleared, either the log rejects the header that is left, or the area holds as many records as its bitmap says and is blank behind them; for records of every size |
| FdcmCut.CutWrite | src/image/fdcm.c:172-225 | if a record is not larger than the bitmap, or does not fit at all, then after a power cut the previous record is read, or nothing, or the new one with bits still set |
| FdcmCut.CutsAreReadIff | src/image/fdcm.c:217-220 | for all areas of a size, records of a size and power cuts that is so if and only if the record is not larger than the bitmap or does not fit |
| FdcmCut.LongRecord | src/image/fdcm.c:217-220 | the failing side: with a larger record and an area that has just got its header, what is read is the header, or lies in front of the area |
| FdcmCut.UncutAreCounted | src/image/fdcm.c:86-132 | after any writes, of any sizes and with any outcome, that are not cut off, a header that is accepted has a record, and nothing is read from outside the area |
| FdcmCut.NotCountedIsHeaderCut | src/image/fdcm.c:117-123 | an area without a record comes from a power cut in a rewrite, between the erasure and the first bit of the bitmap, and from nothing else |
| FdcmCut.StuckMeans | src/image/fdcm.c:258-269 | a record that fits in principle is refused if and only if the header is accepted, has that record size, and leaves less room than the record needs |
| FdcmCut.NeverSticksIff | src/image/fdcm.c:258-269 | after a write, cut off or not, to any area that takes a record, the area takes another one, if and only if no number with all the bits of the bitmap size leaves less room than a record and is still accepted in a header |
| FdcmCut.UncutSticksNot | src/image/fdcm.c:86-132 | a write that is not cut off never gets an area stuck, whatever the sizes |
| FdcmCut.SmallAreaNeverSticks | src/image/fdcm.c:95-105 | an area of 4 KiB with records of 4 bytes meets that condition |
| FdcmCut.ShippedAreaCanStick | project/image_cfg/xr809/image.cfg:4 | one of 32 KiB, the size in the image configurations, does not: of the bitmap size 0x3E1 the header may be left with 0x7FF5 |
| FdcmCut.OtherAreaCanStick | src/image/fdcm.c:95-105 | neither does one of 12 KiB |
| Fdcm.FdcmHandle.constructor | src/image/fdcm.c:143-163 | opening an area changes nothing |
| Fdcm.FdcmHandle.FdcmBitCount | src/image/fdcm.c:55-77 | the loops over bytes and bits count as the value-level function does, whatever the bitmap holds |
| Fdcm.FdcmHandle.Rewrite | src/image/fdcm.c:86-132 | performs exactly the erase and three writes of a new area on its own area, or nothing; the rest of the device is untouched |
| Fdcm.FdcmHandle.Read | src/image/fdcm.c:172-225 | returns the last record; in an area with no used record yet it reads from in front of the records, at an address computed modulo 2^32 (which areas these are, `FdcmCut.NotCountedIsHeaderCut` says) |
| Fdcm.FdcmHandle.Write | src/image/fdcm.c:234-308 | appends or rewrites as the value-level log does, and says how many bytes it has written |
| OtaProtocol.SetCfgCut | src/image/image.c:768-802 | a configuration write cut off anywhere leaves the old choice of slot, the first slot, or the new choice |
| OtaProtocol.SetCfgWhole | src/image/image.c:768-892 | a configuration write that is not cut off is read back as the new slot, verified, unless the area is stuck; then it changes nothing |
| OtaProtocol.StepKeepsInv | src/ota/ota.c:106-242 | every step of download, check, verify, configuration write and start, and every power cut in them that does not get the area stuck, keeps: the configured slot loads and is complete, or it does not load and the other one loads and is complete; and the running slot loads, is complete, and is the one that the application takes itself to be in |
| OtaProtocol.RunKeepsInv | src/ota/ota.c:106-242 | the same for all runs; in areas that cannot get stuck, for all power cuts |
| OtaProtocol.NewDevice | src/image/image.c:110-162 | a new device, with a blank configuration area and a first slot that is complete and loads, is a start of such runs |
| OtaProtocol.BootsCompleteSlot | project/bootloader/main.c:286-342 | in every such run the boot loader never fails, the slot that it starts is complete even when it had to skip one that is complete but does not load, and the application computes that same slot as the running one |
| OtaProtocol.RunsGoRightIff | project/bootloader/main.c:286-342 | all runs in configuration areas of a size go right, with the power going off anywhere, if and only if no power cut can get an area of that size stuck |
| OtaProtocol.StuckRun | project/bootloader/main.c:320-335 | for every other size a run that goes wrong: the note that the second slot was started is cut off, the application takes itself to be in the first, breaks the slot it runs from by an update, and the boot loader finds nothing to start |
| OtaProtocol.RunningSeqIff | src/image/image.c:110-162 | after any start the application knows the running slot if and only if the area is not stuck or the configured slot was started |
| OtaProtocol.StuckIsFrozen | src/image/image.c:768-802 | in an area that is stuck the configuration stays as it is in every run, and no update ever takes effect |
| OtaProtocol.UpdateIsSafeIff | src/ota/ota.c:106-124 | whatever another ota_get_image leaves in its slot is safe if and only if the configuration still stands for the running slot |
| OtaProtocol.SecondDownload | src/ota/ota.c:259-286 | a run from a new device that shows it: download, verify, a second download that breaks off, and the next start is from a broken slot |
| OtaProtocol.VerifyIsSafeIff | src/ota/ota.c:617-677 | ota_verify_image looks only at get_size; with get_size not 0, what it does is safe for everything the download may have left if and only if ota_get_image has returned OK |
| OtaProtocol.FailedDownload | src/ota/ota.c:617-677 | a run from a new device that shows it: a download that fails half way, verify, and the next start is from a broken slot |
| Ota.ImageControl.GetCfg | src/image/image.c:744-848 | reads the configuration that the area holds, including undefined magic numbers |
| Ota.ImageControl.SetRawCfg | src/image/image.c:768-802 | writes and reads back; on flash that works no second try is needed |
| Ota.ImageControl.SetCfg | src/image/image.c:855-892 | writes the configuration of a slot |
| Ota.ImageControl.InitRunningSeq | src/image/image.c:110-162 | the application's running slot is the one the configuration stands for, which is where the boot loader begins |
| Ota.ImageControl.ConfiguredSeq | project/bootloader/main.c:302-320 | the slot to start with is the one the configuration stands for; a configuration that is missing or not verified has to be written after the start of any slot |
| Ota.ImageControl.NoteStarted | project/bootloader/main.c:326-335 | after the start of another slot than the configured one that slot is written down |
| Bootloader.Loader.LoadAppBin | project/bootloader/main.c:261-283 | loads the application if and only if no read of a header and no allocation that it needs has failed, the chain of the image has a section with its id, and that section loads |
| Bootloader.Loader.LoadBin | project/bootloader/main.c:286-342 | starts the configured slot or else the other one; unless a read or an allocation has failed it is, on the slots as they are in flash, a step of the update protocol: Boot of the first slot in that order that loads, or BootFails if none does, with the same configuration area afterwards |
| Ota.ImageControl.VerifyImage | src/ota/ota.c:617-677 | changes the configuration to the other slot exactly when there was a download of non-zero size and the digest is right |
| ImageChecksum.ChecksumSplits | src/image/image.c:436-450 | the 16-bit sum may be taken in pieces if all but the last are of even length |
| ImageChecksum.PiecesAreWholeIff | src/image/image.c:568-585 | summing through a buffer of n bytes is right for all data if and only if n is even |
| ImageChecksum.Checksum16Of | src/image/image.c:436-450 | the loop over halfwords sums as the recursive definition does, odd lengths included |
| ImageChecksum.CheckData | src/image/image.c:504-539 | for every parity of the body, the checksum over body, joint halfword and tailer is that of body and tailer in one piece |
| ImageChecksum.LoadsIff | project/bootloader/main.c:224-225 | for bodies of even and odd length, a section that is whole passes the sum over its body alone if and only if its tailer adds nothing to the sum, where behind an odd body the first byte of the tailer counts as an upper half |
| ImageCheck.CheckHeader | src/image/image.c:473-492 | accepts exactly the headers with the magic number and a sum of all ones |
| ImageCheck.CheckSection | src/image/image.c:550-599 | accepts exactly the sections whose header and data are all there and both sum up to all ones, whatever even buffer they are read through |
| ImageCheck.LoadBinById | project/bootloader/main.c:196-259 | loads exactly the sections with a valid header whose body is there, is not empty, fits in front of the limit, and sums up on its own |
| ImageCheck.WholeLoadsIff | project/bootloader/main.c:217-228 | a section that is whole and not compressed loads if and only if it has a body, which fits, and a tailer that adds nothing to the sum |
| ImageCheck.RefusedIsWhole | project/bootloader/main.c:224-225 | a section of 68 bytes that passes the section check and that the boot loader refuses |
| ImageCheck.CheckSections | src/image/image.c:639-675 | the loop over the chain is the recursive check, which ValidIffChain characterises |
| ImageCheck.VerdictIsFinal | src/image/image.c:655-670 | a verdict does not depend on where the model gives up endless chains |
| ImageCheck.ValidIsChain | src/image/image.c:639-675 | an image found valid is a chain from the boot loader to its end, all of whose sections are whole |
| ImageCheck.ValidIffChain | src/image/image.c:639-675 | an image is found valid if and only if there is a chain of whole sections from the boot loader to its end |
| ImageCheck.FoundIsWhole | src/image/image.c:292-358 | whatever image_get_addr finds in an image found valid, with any state of the cache, is a section that is whole |
| OtaDownload.Source.Get | src/ota/ota.c:152-160 | a call for data delivers the next piece of the stream, of any size up to what was asked for, or fails, as its script says; failures and the end are remembered |
| OtaDownload.Updater.SkipBootloader | src/ota/ota.c:150-171 | leaves out exactly the boot loader; succeeds if and only if no call has failed and the data did not end within it |
| OtaDownload.Updater.FillSlot | src/ota/ota.c:180-213 | however the data arrives, the slot holds it from its beginning on, the rest is blank, and nothing else on the device has changed; succeeds if and only if the data has ended or the slot is full, and otherwise a call has failed |
| OtaDownload.Updater.EraseSlot | src/ota/ota.c:127-129 | erases the slot and nothing else |
| OtaDownload.Updater.UpdateImage | src/ota/ota.c:106-242 | success means: the slot that is not running holds exactly what arrived behind the boot loader, up to the end of the stream or of the slot, and the image is a chain of whole sections. When there is a slot and a connection, no call fails and the data does not end within the boot loader, it succeeds if and only if the image in the slot is found valid |
| ImageSections.LinkedIsPrefix | src/image/image.c:292-358 | any part of the chain in the cache is a prefix of the whole chain |
| ImageSections.LookupIsRight | src/image/image.c:292-358 | with any prefix of the chain in the cache, a query is answered as by a walk over the whole chain: the first section with the id, or the invalid address |
| ImageSections.AgreeingIsRight | src/image/image.c:292-358 | the same for every sequence of queries |
| ImageSections.RightJustOnSameDevice | src/image/image.c:312-325 | whatever the flash holds and however it is asked, the answers are right if and only if the image lies on the same device as the boot loader |
| ImageSections.OtherDeviceIsWrong | src/image/image.c:318-325 | with two devices: a flash content and two queries, the second of which is answered wrongly |
| ImageCache.SectionCache.Clear | src/image/image.c:76-87 | empties the cache |
| ImageCache.SectionCache.Expand | src/image/image.c:270-290 | keeps the contents and makes room for five more; fails if and only if the allocation does |
| ImageCache.SectionCache.FindCached | src/image/image.c:313-316 | finds the first cached section with the id, if there is one |
| ImageCache.SectionCache.Extend | src/image/image.c:334-348 | stays inside the array, which grows whenever the number is a multiple of five |
| ImageCache.SectionCache.GetAddr | src/image/image.c:292-358 | answers as the value-level look-up does unless a read or an allocation that it needed has failed; then it answers with the invalid address, and the cache still holds a part of what it would have held |
| ImageCache.Images.GetAddr | src/image/image.c:292-371 | at any time, unless a read or an allocation has failed, the answer is that of a walk over the chain as it is in flash now, and both caches stay prefixes of their chains |
| ImageCache.Images.Rw | src/image/image.c:381-434 | a write to a header empties the caches, so that they stay right whatever it changes |
| EfuseBits.ProgrammedIs | src/efpg/efpg_efuse.c:158-164 | programming is the one change that clears no bit, sets no stuck one, sets the others that are asked for, and touches nothing else |
| EfuseRegion.FirstFlag | src/efpg/efpg_efuse.c:151-155 | finds the lowest slot with a flag |
| EfuseRegion.TrySlot | src/efpg/efpg_efuse.c:158-184 | success means the flag and all data bits of that slot have taken; only that slot has changed |
| EfuseRegion.ReadRegion | src/efpg/efpg_efuse.c:106-136 | reads the lowest flagged slot, or reports that there is none |
| EfuseRegion.WriteRegion | src/efpg/efpg_efuse.c:138-188 | with any stuck bits: succeeds if and only if a slot in front of the one that counts takes a flag and the data; then the region reads back the data from a lower slot than before, and all other slots and bits are untouched. When it fails, what is read survives if no slot in front takes a flag; otherwise it is what the first of those has kept of the data |
| EfuseRegion.OldValueLost | src/efpg/efpg_efuse.c:158-188 | fuses on which a write fails and the value from before is no longer read |
| EfuseBoot.HashCmp | src/efpg/efpg_efuse.c:36-67 | accepts at most two differing bits and returns their numbers in order |
| EfuseBoot.DifferencesAre | src/efpg/efpg_efuse.c:46-64 | the differences are exactly the bits that differ, in ascending order |
| EfuseBoot.BitsBack | src/efpg/efpg_efuse.c:527-532 | a bit number survives being stored as eight bits |
| EfuseBoot.ReadBoot | src/efpg/efpg_efuse.c:299-342 | reads the hash with the noted bits turned over |
| EfuseBoot.NotedIsRead | src/efpg/efpg_efuse.c:299-342 | a hash whose wrong bits are noted is read back if and only if the correction bits beyond that do no harm |
| EfuseBoot.WriteBoot | src/efpg/efpg_efuse.c:485-564 | with any stuck bits: success notes up to two wrong bits; the hash is then read back if and only if the old correction bits do no harm for the number of bits that come out wrong, which fuses and data tell beforehand; from blank enable bits it always is |
| JsonText.NumberParses | src/cjson/cJSON.c:165-232 | every 32-bit integer is read back from its decimal text, in front of anything that cannot continue a number |
| JsonText.EscapeRoundTrip | src/cjson/cJSON.c:533-661 | undoing the escapes of an escaped string gives back the string, for all NUL-free strings |
| JsonText.StringParses | src/cjson/cJSON.c:490-665 | what is printed for a string is read back as that string |
| JsonText.TextParses | src/cjson/cJSON.c:921-1681 | for every tree of null, booleans, 32-bit integers, NUL-free strings, arrays and objects, formatted or not, parsing the text gives back the tree and leaves what follows it; JSON of sections 2 to 7 of RFC 8259 |
| JsonLayout.FormatsAgree | src/cjson/cJSON.c:1139-1681 | formatted and unformatted texts of a tree differ in white space outside strings alone: a scan that knows only which brackets are open makes either of them from either, with every member of an object on a line of its own behind a tab for each open bracket |
| JsonGrammar.Utf8IsExact | src/cjson/cJSON.c:610-651 | the bytes written for a code point below 0x110000 are the one shortest UTF-8 form of it, by a UTF-8 decoder of its own |
| JsonGrammar.PointReads | src/cjson/cJSON.c:566-651 | every code point but 0 and the surrogates, written as one or as a pair of escapes with hex digits of either case, is read as its UTF-8, with 6 or 12 characters taken |
| JsonGrammar.QuotedReads | src/cjson/cJSON.c:490-664 | a string written in any mixture of plain characters, letters behind a backslash and escaped code points is read as what it stands for |
| JsonGrammar.QuotedOnly | src/cjson/cJSON.c:490-664 | and nothing else is read as a string |
| JsonGrammar.SyntaxReads | src/cjson/cJSON.c:921-1400 | every text of the grammar, with white space anywhere between its parts, is read as the value it stands for |
| JsonGrammar.SyntaxOnly | src/cjson/cJSON.c:921-1400 | what is read is a text of the grammar |
| JsonGrammar.ParsesIff | src/cjson/cJSON.c:921-1400 | the parser gives a value and a rest if and only if the text is one of the grammar that stands for the value, in front of the rest |
| JsonPrinter.PrintStringPtr | src/cjson/cJSON.c:668-811 | the counted length is exact, and the text is the escaped string in quotes, with or without anything to escape |
| JsonPrinter.JoinFits | src/cjson/cJSON.c:1236-1263 | the length counted for an array is at least that of its text |
| JsonPrinter.MembersFit | src/cjson/cJSON.c:1575-1606 | the length counted for an object is at least that of its text |
| JsonPrinter.PrintValue | src/cjson/cJSON.c:969-1069 | unbuffered printing composes the text of the tree |
| JsonPrinter.PrintArray | src/cjson/cJSON.c:1226-1305 | the entries are joined in order with their separators |
| JsonPrinter.PrintObject | src/cjson/cJSON.c:1558-1681 | the members are joined in order with indentation |
| JsonPrinter.TextIsC | src/cjson/cJSON.c:969-1069 | no printed text holds a NUL, so that strlen finds its end |
| JsonBuffer.Pow2GtOf | src/cjson/cJSON.c:235-253 | smearing the highest bit of x - 1 to the right by 1, 2, 4, 8 and 16 gives the next power of two for every x up to 2^31, and never less than x |
| JsonBuffer.PrintBuffer.Ensure | src/cjson/cJSON.c:264-301 | there is room for what is needed and what has been printed is kept, also when the buffer is replaced; it fails only for a buffer that may not grow |
| JsonBuffer.PrintBuffer.Update | src/cjson/cJSON.c:304-314 | the offset moves to the end of the text |
| JsonBuffer.PrintBuffer.PrintValue | src/cjson/cJSON.c:969-1069 | appends the text of the tree to what has been printed |
| JsonBuffer.PrintBuffer.PrintArray | src/cjson/cJSON.c:1178-1225 | the same for an array, entry by entry |
| JsonBuffer.PrintBuffer.PrintObject | src/cjson/cJSON.c:1426-1557 | the same for an object, member by member |
| JsonBuffer.PrintBuffered | src/cjson/cJSON.c:895-918 | buffered printing gives the same text as unbuffered printing, for every initial size |
| JsonBuffer.PrintedIsParsed | src/cjson/cJSON.c:839-918 | printing and then parsing the whole text gives back the tree, with any white space around it, whether the end is checked or not |
| JsonParser.SkipWhite | src/cjson/cJSON.c:828-836 | skips what the recursive parser skips |
| JsonParser.ParseNumberAt | src/cjson/cJSON.c:165-232 | the loop over digits computes the number that the recursive parser reads |
| JsonParser.FindEnd | src/cjson/cJSON.c:504-520 | finds the quote that ends the string, or the backslash before the end of the text |
| JsonParser.Unescaping | src/cjson/cJSON.c:533-661 | the loop over the escapes appends what the recursive definition gives, of which PointReads and StringReads say what it means, or fails where it fails |
| JsonParser.UnescapeFits | src/cjson/cJSON.c:507-523 | what is written for a string, UTF-8 of escapes included, never exceeds the room counted for it before |
| JsonParser.ParseStringAt | src/cjson/cJSON.c:490-665 | reads the string, up to the end of the text when there is no closing quote |
| JsonParser.ParseValueAt | src/cjson/cJSON.c:921-966 | moves through the text as the recursive parser does and fails where it fails |
| JsonParser.ParseItemsAt | src/cjson/cJSON.c:1072-1136 | the loop that links children in order builds the list of the recursive parser |
| JsonParser.ParseMembersAt | src/cjson/cJSON.c:1308-1400 | the same for the members of an object |
| JsonParser.Parse | src/cjson/cJSON.c:839-882 | a whole text, with or without the check that nothing follows |
| IntrusiveList.LinkBetween | include/sys/list.h:41-50 | links an entry between two others |
| IntrusiveList.ListAdd | include/sys/list.h:60-63 | puts an entry right behind the head, keeping a well-formed ring |
| IntrusiveList.ListDelEntry | include/sys/list.h:85-102 | takes an entry out of a ring, whatever its place |
| IntrusiveList.ListMove | include/sys/list.h:146-150 | takes an entry from one ring to the front of another, both well formed |
| Pm.PowerManager.constructor | src/pm/pm.c:929-972 | all lists are empty rings |
| Pm.PowerManager.Listed | src/pm/pm.c:813-818 | walking the ring finds a device exactly when it is listed |
| Pm.PowerManager.Register | src/pm/pm.c:772-846 | succeeds exactly for a sound driver that is not registered, and puts it in front; a driver with only one of the noirq callbacks is refused but stays registered for normal suspend |
| Pm.PowerManager.ToSuspended | src/pm/pm.c:541-544 | the device moves to the front of the suspended list, and all four lists stay well formed |
| Pm.PowerManager.SuspendFirst | src/pm/pm.c:521-545 | a device that refuses stays where it is, any other is suspended; reference counts come out as they were |
| Pm.PowerManager.DpmSuspend | src/pm/pm.c:513-560 | suspends in list order up to the first device that refuses, which is the one that is called last; an error if and only if there is one |
| Pm.PowerManager.DpmResume | src/pm/pm.c:599-627 | resumes every suspended device once, the last one first, and restores the order |
| Pm.PowerManager.DpmSuspendNoirq | src/pm/pm.c:454-511 | the same with interrupts off, also stopping behind a device that is followed by a wake-up, and at one that comes back with interrupts on, then without an error |
| Pm.PowerManager.DpmResumeNoirq | src/pm/pm.c:562-597 | resumes these devices in the reverse order |
| Pm.PowerManager.SuspendEnter | src/pm/pm.c:636-706 | which calls are made follows from the answers: prepare, the noirq phase, sleeping unless something turns it back, waking up, and the noirq resumes; the lists come out as before |
| Pm.PowerManager.SuspendDevicesAndEnter | src/pm/pm.c:712-763 | for any devices and all answers: exactly the calls of CycleCalls are made, lists and reference counts are restored, and an error comes from begin or from a device on the normal list that refuses, and from nothing else |
| PmCycle.ResumedIsReverse | src/pm/pm.c:454-763 | whoever refuses and whatever else goes wrong: in either phase exactly the devices that have suspended are resumed, once each, in the reverse order; with interrupts on, these are the ones in front of the first that refuses |
| PmCycle.SleepsIff | src/pm/pm.c:636-763 | the system is put to sleep if and only if nobody objects: no hook, no test, no wake-up, no device; behind a device that comes back with interrupts on nobody is asked |
| PmCycle.AllAsleepIff | src/pm/pm.c:463-496 | while it sleeps all devices have suspended with interrupts on; with interrupts off they have if and only if none of them comes back with interrupts on |
| PmCycle.AsleepUnprepared | src/pm/pm.c:463-496 | two devices and answers with which the system sleeps while neither of them has suspended with interrupts off |
| PmCycle.WokenBehindEntered | src/pm/pm.c:683-759 | the platform is told to wake up right behind the sleep, and the end of every cycle is announced last |
| ConsoleRing.OneRole | src/console/console.c:129-160 | every buffer is in exactly one of free, receiving, ready, executing |
| ConsoleRing.SearchFindsLine | src/console/console.c:129-145 | in a ring the round-robin search finds the buffer of the next line |
| ConsoleRing.RingStarts | src/console/console.c:345-375 | console_start sets up the ring |
| ConsoleRing.RingCompletes | src/console/console.c:148-160 | completing a line keeps the ring: line i always lies in buffer i mod N |
| ConsoleRing.RingTakes | src/console/console.c:302-305 | the task takes the line that has been ready for the longest |
| ConsoleRing.RingReleases | src/console/console.c:316-325 | giving a buffer back keeps the ring, whether it becomes free or is received into at once |
| Consoles.Console.constructor | src/console/console.c:345-398 | nothing has arrived, and the task waits |
| Consoles.Console.GetValidBufIdx | src/console/console.c:129-145 | the loop is the round-robin search, and takes the entry out |
| Consoles.Console.RxCmdline | src/console/console.c:148-160 | the line in the receive buffer arrives, unchanged |
| Consoles.Console.RxCallback | src/console/console.c:163-279 | received data never touches a line that has arrived and is still needed; it is thrown away only when there is no receive buffer |
| Consoles.Console.TaskStep | src/console/console.c:285-337 | every step of the task keeps the ring; a task that does not wait gets closer to waiting |
| Consoles.Console.Promises | src/console/console.c:285-337 | executed lines are a prefix of the arrived ones; the semaphore is the number of ready buffers, counted in the bitmap, less the one that the task has been woken up for; a task that waits at zero has executed everything; data is thrown away only while all N buffers hold lines |
| Consoles.Console.Run | src/console/console.c:163-337 | for any interleaving of interrupt and task, lines are executed once each and in order |
| Consoles.Console.Drain | src/console/console.c:285-337 | left alone the task executes all that has arrived and waits again; no wake-up is lost |

## Left out

- XZ_SINGLE mode, in which the dictionary is the output buffer; the boot loader does not use it.
- Allocation failure and the memory limit in `src/xz`; memory is always there.
- Stream Header, Block Header, Block padding and Block check of the .xz container (`dec_stream_header`, `dec_block_header`, `dec_main` before the Index): they hand sizes to `BlockDone` and would add field checks only.
- `xz_dec_run`'s XZ_BUF_ERROR after two calls without progress, and CRC64.
- BCJ filters other than ARM-Thumb, which are switched off in `include/xz/xz_opt.h`.
- BootDecompress.Decompress: feeds the LZMA2 decoder directly, without the container and the 16-bit sum over the blocks; `XzStream` and `ImageChecksum` cover these separately.
- XzIndex.HashAppend: the hash goes over the two sizes, the CRC32 and four padding bytes of the structure, which are taken to be zero.
- Vli.VliIsExact: the C code or's the bits in; the model adds them, which `VliDisjoint` shows to be the same.
- Dictionaries.Dictionary.constructor: `allocated` is never updated by the C code and only decides when memory is allocated again; not modelled.
- NorFlash.Flash.EraseArea: erasing is all or nothing; only programming may be cut off half way. Flash that is worn out is not modelled.
- Fdcm.FdcmHandle.constructor: opening does not check the alignment to erase blocks; the area must lie on a device smaller than 4 GiB.
- OtaProtocol.StepKeepsInv: a digest that is right says nothing about the slot, and whether a slot loads stays the same until it is written. Images are abstract here; `Bootloader.SlotOf` says what a slot in flash is.
- Bootloader.Loader.LoadAppBin: whether a compressed body unpacks is a parameter (`BootDecompress`), and the second section that is loaded on another chip is left out.
- OtaProtocol.RunsGoRightIff: configuration areas whose bitmap has at least four bytes and leaves room for a record, as all of 4 KiB to 1 MiB do (`CfgAreaFits`).
- Lzma2Writer.StreamReads: the writer has no counterpart in the SDK, which only decodes; which packets and chunks are chosen for given data is left to the caller, so nothing is said about how well it compresses.
- ImageCache.SectionCache.GetAddr: which of the reads and allocations fail is a script; how many of them a call makes is not part of its contract.
- Lzma2Decoders.Lzma2Decoder.constructor: a new decoder; what an earlier Block has left in the LZMA state is no parameter of it. That such leftovers have no effect is `StaleStateIsUnused`.
- BcjDecoders.BcjDecoder.Run: after an error of the LZMA2 decoder the C code leaves bytes in the caller's buffer that may not have been filtered; nothing is promised about them.
- ImageCheck.CheckSections: gives up after a number of sections, where the C code would follow a cyclic chain forever.
- OtaDownload.Source.Get: what the download back ends do is open, except that they deliver a stream in order; HTTP and files are not modelled. `flash_write` inside a slot does not fail.
- ImageCache.Images.Rw: the data that is read or written is not modelled, only what a write may do to headers; `image_init` and `image_get_size` are left out.
- ImageSections.LookupIsRight: chains that end within 255 sections; the count of cached sections is a byte.
- Compatibility with boot loaders before 0.3, the ETF program's own configuration write, and the digests behind `ota_verify_image`, of which only the outcome is a parameter.
- EfuseRegion.TrySlot: data and flags are sequences of bits, not packed bytes, and the flag word is not limited to 32 bits; accesses inside the fuses do not fail.
- The eFuse fields with a single use (HOSC, user area) and the old implementation.
- JsonParser.ParseNumberAt: fractions, exponents and integers beyond 32 bits are outside the model, which says so instead of giving a value.
- JsonBuffer.PrintBuffer.Ensure: buffer sizes of more than 2^30 bytes, for which the C code overflows an int.
- JsonPrinter.PrintObject: freeing of names and values, and failure of allocation; trees are values, so that no item occurs twice. `print_object` overwrites its loop variable on one path, without effect.
- Deleting, changing and duplicating JSON items, and the hooks.
- Pm.PowerManager.SuspendEnter: the result `wakeup`, which the C code leaves unset when `prepare` fails and which its caller drops, is not modelled; modes that reboot are left out. Each answer is given once per cycle.
- Pm.PowerManager.Register: the links of a device that is on no list are unset or point to itself, as the C code demands by its own check; unregistering is left out.
- Consoles.Console.RxCallback: what the characters of a line are, echo, backspace and lines that are too long; a step may put any text into the receive buffer. Stopping the console is left out.
- HAL, UART, RTC, crypto engine, watchdog and operating system calls, the MQTT demo itself, Wi-Fi, sockets and AT commands.
