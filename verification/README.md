# Verified model of the LUCIDAC firmware's state machines and encoders

The firmware controls an analog computer: it takes firmware images over the network, configures
crossbars and coefficients, samples the analog outputs, and talks WebSocket. This project models
the parts where a property spans many steps, each against a small explicit device or peer:

- **Firmware update.** `Base64` is the chunk codec. `FlashMemory` is flash whose sectors erase to
  0xFF and whose writes only clear bits, with the buffer search, the block writer and the
  overlapping move. `FirmwareUpdate` is the protocol over it, for every list of requests, and
  `UploadRuns` says which requests are taken and what it takes to install an image.
- **Configuration.** `UMatrix` packs the U block's outputs into a shift stream. `IMatrix` programs
  four 16x8 crosspoint chips by replayed commands. `Blocks` holds the blocks' configuration in
  memory and what their hardware holds, coefficients as the words `Converter` makes of them.
  `Routing` says which linear map a configuration denotes and what routing calls do to it.
  `Calibration` is route calibration over all of that.
- **WebSocket.** `WebSocketFrames` has the bytes: headers, masking, a socket with short and failed
  reads, receiving a frame. `WebSocketEndpoint` has the receiver and its stream builder, proved to
  behave as an intended receiver (`Receive`). `WebSocketConversation` joins the sending client, the
  wire and the receiver.
- **Data acquisition.** `DoubleBuffer` is the ring that DMA, interrupt, polling and handling share.
  `Recording` is a run of it, for every interleaving of these.
  `RunDataMessage` is the text template of the run data. `RunPlan` is the sampling plan and loop of
  a run without streaming.
- **Smaller loops.** `HashFeed` (hash chunk buffering), `Eeprom` (paged writes), `Factorize`.
  `Sequences`, `Arithmetic` and `Options` have what several modules share.

Things updated in place are classes or arrays; each method is proved against a function or a
predicate on values, and the main results are theorems about those.

## Where the code differs from its comments or from what one would expect

Each of these is a proved statement below.

- Sending with a mask key counts the key from the start of the whole message, not of the payload.
  A receiver then gets the data back if and only if the key fits the length (`KeyFits`): always for
  126 to 65535 octets, else only if key octets 0 and 2, and 1 and 3, agree as far as the data goes.
- Header, extended length and key are each fetched by one read. A frame comes through if and only if
  those reads will be whole (`WholeHead`); short reads of the payload do no harm (`ReceiveFrame`,
  `ReadData`, `Converse`).
- A close ends the connection, and the two fragment policies see it at different times: on a
  fragmented message with the opcode of a close, the notified application stops at the first
  fragment, the aggregating one when the message is whole (`PoliciesAgreeExactly`,
  `FragmentedCloseTellsApart`).
- An unforced `connect` checks only the new input before it switches a side's mode, and can thereby
  change other lanes (`ConnectKeepsSignalsExactly`, `AlternativeRouteDisturbs`).
- A refused `route` or `add_constant` is not undone and can change an output: it may have set the
  upscaling of a lane in use, or switched a side (`RefusedCallChangesOutput`). `Harmless` says of
  every call, before it is made, whether it does just what it should (`OneCallExactly`).
- Calibration resets upscaling before it looks at a lane's upscaling, so it always uses the full
  reference, never the one-tenth reference its comment describes (`CalibrateRoutes`, `Isolated`).
- The final `stream(true)` drops the tail if a half is still flagged, and the static pointer
  survives a run: a later run that ends before its first half is full reads the wrong part, with a
  wrapped count, if the pointer was left at the second half (`Record`).
- Two halves can be delivered in the wrong order although no overflow is flagged (`SlowPolling`), and
  the interrupt for the ring's end flags the wrong half if it is served one sample late
  (`LateAtRingEnd`). Being in time excludes both (`InTimeIsDue`) but is more than is needed
  (`LateButInOrder`); what is needed is said exactly, for every interleaving, by `DeliveryExactly`.
- Both setters of a coefficient admit a factor of 1.01 corrected by 1.1, which the converter cannot
  reach: it clamps at 1.1 (`LargestProductIsClamped`, `ConvertsExactly`).
- The clamp on the number of samples, which "should not happen", acts exactly when `ClampActs` says.
- A paged EEPROM write whose range ends past 2^32 passes the address check if the wrapped end is on
  the chip, and overwrites one page of the chip with all its bytes (`Write`, `WrappingExample`).
- With an input below the tolerance the factorisation never comes to an acceptable pair
  (`StopsExactly`).
- A successful abort answers 1 like a failed one, since it returns `true` (`Abort`). `complete`
  without an upload dereferences null, and so does an `init` that is too large, which deletes the
  upgrade and then reads it for the error text instead of answering 2; no other request does
  (`Complete`, `Init`, `DereferencesNullExactly`).
- The size computation of the encoder wraps from 2^29 input bytes on (`EncodeSize`); the decoder's
  wraps for a text that starts with padding (`DecodeSize`).

## Model

| member | source | states |
|---|---|---|
| Base64.AlphabetInverse | lib/controller/src/utils/etl_base64.h:448-511 | the two alphabet maps are inverse on the 64 sextets, none of which maps to padding |
| Base64.SymbolsOfEncoded | lib/controller/src/utils/etl_base64.h:93-188 | the symbols before the padding of an encoding are exactly the sextets that carry data |
| Base64.RoundTrip | lib/controller/src/utils/etl_base64.h:93-375 | decoding an encoding gives the bytes back, for every byte string |
| Base64.AlphabetOfRfc | lib/controller/src/utils/etl_base64.h:448-511 | the alphabet of section 4 of RFC 4648, by its corners and its steps |
| Base64.GroupIsNumber | lib/controller/src/utils/etl_base64.h:93-188 | three bytes and their four symbols are the same 24-bit number, most significant part first |
| Base64.PaddingOfRfc | lib/controller/src/utils/etl_base64.h:160-188 | the padding, by the first test vectors of section 10 of RFC 4648 |
| Base64.EncodeSize | lib/controller/src/utils/etl_base64.h:271-284 | the computed size is 4 symbols per started 3 bytes if and only if the input is shorter than 2^29 bytes |
| Base64.Encode | lib/controller/src/utils/etl_base64.h:93-188 | writes the encoding, padded, to the front of the output and nothing else, or nothing if it does not fit |
| Base64.DecodeSize | lib/controller/src/utils/etl_base64.h:409-421 | the size of the decoding for every text with a symbol before the padding; wraps to 0xC0000000 for one without |
| Base64.Decode | lib/controller/src/utils/etl_base64.h:293-375 | writes exactly the decoding, padded or not, to the front of the output, or nothing if it does not fit |
| FlashMemory.Flash.WriteWord | lib/controller/src/ota/flasher.cpp:161-164 | the device: a write can only clear bits of the addressed word |
| FlashMemory.Flash.EraseSector | lib/controller/src/ota/flasher.cpp:142-146 | the device: erasing sets the whole sector around an address, and only it, to 0xFF |
| FlashMemory.Flash.SectorNotErased | lib/controller/src/ota/flasher.cpp:114-122 | true if and only if some byte of the sector is not 0xFF |
| FlashMemory.FindLastWord | lib/controller/src/ota/flasher.cpp:75-80 | finds the highest programmed word below the reserve |
| FlashMemory.BufferInit | lib/controller/src/ota/flasher.cpp:75-87 | the buffer starts at the sector boundary right above the code and everything from there to the reserve is erased |
| FlashMemory.EraseBlock | lib/controller/src/ota/flasher.cpp:204-220 | exactly the sectors from the start to the end of the range are erased |
| FlashMemory.MoveWord | lib/controller/src/ota/flasher.cpp:137-165 | one word moves right, provided it is not in the sector that gets erased for it |
| FlashMemory.CopyImage | lib/controller/src/ota/flasher.cpp:134-171 | the image is copied down although source and destination may overlap; no word is erased before it is read |
| FlashMemory.EraseRest | lib/controller/src/ota/flasher.cpp:177-191 | the rest up to the reserve is erased and nothing else changes |
| FlashMemory.FlashMove | lib/controller/src/ota/flasher.cpp:127-199 | afterwards the bottom holds the old source, all up to the reserve is erased, the reserve is untouched |
| FlashMemory.BlockWriter.WriteBlock | lib/controller/src/ota/flasher.cpp:225-269 | aligned chunks are programmed as they are, others refused; the static word buffer is empty between calls |
| FirmwareUpdate.BufferIsUnique | lib/controller/src/ota/flasher.cpp:75-87 | there is only one region the buffer search can mean |
| FirmwareUpdate.FirmwareFlasher.Init | lib/controller/src/ota/flasher.cpp:307-331 | answers as the protocol says; crashes exactly if there is no upload and the announced length exceeds the buffer region; never changes the flash |
| FirmwareUpdate.FirmwareFlasher.AppendChunk | lib/controller/src/ota/flasher.cpp:356-372 | the received bytes grow by exactly the decoded chunk, which reads back from flash; the writer cannot refuse it |
| FirmwareUpdate.FirmwareFlasher.Stream | lib/controller/src/ota/flasher.cpp:333-374 | answers as the protocol says, whose codes are those of `UploadRuns.ChunkCodesExactly`; a refused chunk leaves flash and session alone |
| FirmwareUpdate.FirmwareFlasher.Abort | lib/controller/src/ota/flasher.cpp:410-416 | the flash is again what it was before init, after any number of chunks |
| FirmwareUpdate.FirmwareFlasher.DeleteUpgrade | lib/controller/src/ota/flasher.cpp:105-109 | dropping the upload erases the buffer region, which restores the flash |
| FirmwareUpdate.FirmwareFlasher.Complete | lib/controller/src/ota/flasher.cpp:418-436 | moves the image only if length and hash are right, and then exactly the received bytes are installed; crashes exactly if there is no upload; otherwise changes nothing |
| FirmwareUpdate.StepIsJustified | lib/controller/src/ota/flasher.cpp:307-436 | every request keeps: received bytes are the accepted payloads, a multiple of 4, within the announced length |
| FirmwareUpdate.RunIsJustified | lib/controller/src/ota/flasher.cpp:307-436 | over every run, a reboot happens only into the concatenation of the accepted chunks, of announced length and hash |
| FirmwareUpdate.DereferencesNullExactly | lib/controller/src/ota/flasher.cpp:307-420 | a run ends in a null dereference exactly if an idle session meets a complete request or an init announcing more than the buffer region holds |
| FirmwareUpdate.CompleteAlone | lib/controller/src/ota/flasher.cpp:418-420 | a shortest such run: a single complete request |
| FirmwareUpdate.TooLargeAlone | lib/controller/src/ota/flasher.cpp:318-323 | a single init ends in a null dereference if and only if it announces more than the buffer region holds, and otherwise starts the upload |
| FirmwareUpdate.OverlayReadsBack | lib/controller/src/ota/flasher.cpp:127-191 | the upload reads back from the buffer region, and moving it gives the installed image |
| FirmwareUpdate.Serve | lib/controller/src/ota/flasher.cpp:307-436 | after any requests the flash is the first contents, those plus the upload in the buffer region, or the installed image, every answer is the protocol's, and the reserve from 0x7B0000 on is untouched |
| UploadRuns.ChunkCodesExactly | lib/controller/src/ota/flasher.cpp:333-374 | after any requests, each answer to a chunk has exactly one reason in sizes: 0 if and only if its text is a multiple of 4 and it decodes to 4, 8, ... 1536 bytes that are still missing; 1 without an upload; 2 if nothing is missing or the text does not decode into 1536 bytes; 3, 4, 7, 8 for no text, a text or bytes off by a part of a word, and too many bytes; a refused chunk changes nothing |
| UploadRuns.OtherCodesExactly | lib/controller/src/ota/flasher.cpp:307-436 | the same for init, abort and complete |
| UploadRuns.UploadGoesOn | lib/controller/src/ota/flasher.cpp:333-374 | by induction over the chunks: every chunk that is well sized and not too much is answered 0 and kept |
| UploadRuns.UploadCompletes | lib/controller/src/ota/flasher.cpp:307-436 | liveness: for every length within the region, every hash and all well-sized chunks that decode to that many bytes, init and chunks are answered 0 and complete reboots into the bytes if and only if their hash is the announced one, and answers 2 otherwise |
| UploadRuns.ServeUpload | lib/controller/src/ota/flasher.cpp:307-436 | the same on the flash: the image at the bottom and 0xFF up to the reserve, or the upload waiting in the buffer region |
| UploadRuns.ImageInstalls | lib/controller/src/ota/flasher.cpp:307-436 | however an image is cut into whole words of at most 1536 bytes, sent encoded it is what the device reboots into |
| HashFeed.HashContext.Update | lib/controller/src/utils/dcp.cpp:426-491 | keeps: fed data plus buffered bytes are the message so far, all feeds whole 64-byte blocks; up to 128 bytes are kept back, of more less than 64 |
| HashFeed.HashContext.Finish | lib/controller/src/utils/dcp.cpp:493-533 | the last feed carries TERM, and INIT if it is also the first |
| HashFeed.HashChunks | lib/controller/src/utils/dcp.cpp:412-533 | for every cutting into chunks the engine is fed exactly the message, INIT on exactly the first feed, TERM on exactly the last |
| Eeprom.Chip.Transfer | lib/hal-lucidac/src/chips/EEPROM25AA02.cpp:79-87 | the chip: bytes wrap inside the 16-byte page and the write latch is dropped |
| Eeprom.InPage | lib/hal-lucidac/src/chips/EEPROM25AA02.cpp:73-76 | a transfer that stays in its page writes what it was given where it was told |
| Eeprom.PageOfSixteen | lib/hal-lucidac/src/chips/EEPROM25AA02.cpp:73-76 | within a transfer bytes stay in the first one's 16 bytes, in order up to their end and then from their start again |
| Eeprom.Write | lib/hal-lucidac/src/chips/EEPROM25AA02.cpp:56-115 | for every range that fits, the range equals the buffer and all else is unchanged, up to a whole page if a wait fails; bytes are sent exactly if the range is not empty and its end, modulo 2^32, is on the chip; no transfer crosses a page of 16 unless the range wraps, and then all goes over one page; the write latch stays set exactly if the range is refused |
| Eeprom.WrappingExample | lib/hal-lucidac/src/chips/EEPROM25AA02.cpp:68-92 | 32 bytes from 0xFFFFFFF0 on are accepted and land in the last page, the second half over the first |
| Factorize.Factorize | lib/controller/src/utils/factorize.cpp:12-31 | terminates; the product is at most the tolerance below the input and never above; the root pair if that is close enough, else the least x above the root whose remainder is |
| Factorize.StopsExactly | lib/controller/src/utils/factorize.cpp:15-30 | some number and its cofactor are accepted if and only if the input reaches the tolerance; below it the unsigned subtraction wraps past the input |
| RunPlan.ClampActs | lib/computation/src/run/run_manager.cpp:98-107 | exactly when the "should not happen" clamp acts |
| RunPlan.PlanIsAccurate | lib/computation/src/run/run_manager.cpp:98-107 | at most 16384 samples; the planned time is never above the asked one, falls short by less than 16384 us, and is exact if and only if not clamped |
| RunPlan.PlanIsDense | lib/computation/src/run/run_manager.cpp:98-107 | the plan samples as often as it may: the sleep is the longest with which 16384 samples fit, one more sample would not fit unless there are 16384, and what is left over is less than one period |
| RunPlan.PeriodIsZero | lib/computation/src/run/run_manager.cpp:98-104 | the division is by zero exactly without sampling time and below 16384 us |
| RunPlan.TakeSamples | lib/computation/src/run/run_manager.cpp:109-153 | although every sample writes eight entries, entry s*c+k is channel k of sample s afterwards, all inside the padded buffer |
| UMatrix.ShiftMultiplies | lib/platform-lucidac/src/block/ublock.cpp:11-19 | the shifted buffer plus the five bits lost on the left is 32 times the value |
| UMatrix.ShiftLeft5 | lib/platform-lucidac/src/block/ublock.cpp:11-19 | in place: multiplication of the big-endian value by 32 modulo 256^size |
| UMatrix.EightCodesInFiveBytes | lib/platform-lucidac/src/block/ublock.tpl.h:14-17 | 32 to the number of outputs is 256 to the number of bytes, so nothing is lost on the left |
| UMatrix.PackedBound | lib/platform-lucidac/src/block/ublock.tpl.h:40-55 | the packed number stays below 32 to the number of outputs |
| UMatrix.UnpackPacked | lib/platform-lucidac/src/block/ublock.tpl.h:40-55 | decoding the packed number gives the outputs back |
| UMatrix.Transfer | lib/platform-lucidac/src/block/ublock.tpl.h:14-57 | the buffer, read as a big-endian number, is the sum of the codes times powers of 32, and decodes to the outputs |
| IMatrix.WordDecodes | lib/platform-lucidac/src/block/iblock.cpp:16-19 | a command word addresses the point it was made for and connects it |
| IMatrix.WordIsNumber | lib/platform-lucidac/src/block/iblock.cpp:16-19 | the word is 128 plus 16 times the output modulo 8 plus the input modulo 16 |
| IMatrix.StrobeAdds | lib/platform-lucidac/src/block/iblock.cpp:311-345 | a chip that gets its next or its old byte adds exactly the asked point |
| IMatrix.SyncAdds | lib/platform-lucidac/src/block/iblock.cpp:311-357 | one command adds exactly the points of this turn on all four chips, and the remembered command stays harmless |
| IMatrix.AssembleCommand | lib/platform-lucidac/src/block/iblock.cpp:311-345 | masking and or-ing gives every chip its byte: a new word or the remembered one |
| IMatrix.AssembledBytes | lib/platform-lucidac/src/block/iblock.h:15-24 | from the lowest byte on, a command holds the words for inputs 0 to 15 and 16 to 31 of the lower, then of the upper output, or the byte sent before |
| IMatrix.WriteOutputs | lib/platform-lucidac/src/block/iblock.cpp:291-359 | from reset exactly the requested 32x16 matrix gets connected, and at no time anything else, failing transfers included; it fails exactly at the first transfer that does |
| Blocks.UBlock.Connect | lib/platform-lucidac/src/block/ublock.cpp:43-71 | succeeds exactly if `CanConnect`, forced or not; changes that output and at most the mode of its side; a refusal changes nothing |
| Blocks.ConnectsExactly | lib/platform-lucidac/src/block/ublock.cpp:43-71 | when a connect succeeds, in numbers: a forced one always, an unforced one on a free output if the side is at its analog inputs or the input is nowhere in use |
| Routing.ConnectedCarries | lib/platform-lucidac/src/block/ublock.cpp:43-129 | whatever the sides were set to, a lane just connected carries its input, and an alternatively connected one its signal |
| Blocks.UBlock.ConnectAlternative | lib/platform-lucidac/src/block/ublock.cpp:73-129 | succeeds exactly if `CanConnectAlternative`, forced or not, on either side; feeds the output from that side in the asked mode |
| Blocks.ConnectsAlternativeExactly | lib/platform-lucidac/src/block/ublock.cpp:73-108 | when an alternative connect succeeds, in numbers, for both sides, forced or not |
| Blocks.AlternativeInputOnSide | lib/platform-lucidac/src/block/ublock.cpp:109-125 | the one-to-one input with its fallback to zero is always on the side asked for |
| Blocks.UBlock.Disconnect | lib/platform-lucidac/src/block/ublock.cpp:133-143 | removes exactly that connection, if it is there |
| Blocks.DisconnectUndoes | lib/platform-lucidac/src/block/ublock.cpp:43-143 | disconnecting undoes an unforced connect, and its mode switch if and only if there was none |
| Blocks.UBlock.WriteToHardware | lib/platform-lucidac/src/block/ublock.cpp:226-233 | on success the hardware holds the configuration |
| Blocks.CBlock.SetFactor | lib/platform-lucidac/src/block/cblock.cpp:24-32 | accepts exactly in-range factors of existing coefficients and changes only that one |
| Blocks.CBlock.SetGainCorrection | lib/platform-lucidac/src/block/cblock.cpp:81-89 | accepts exactly corrections within 0.1 of one |
| Blocks.CBlock.WriteToHardware | lib/platform-lucidac/src/block/cblock.cpp:44-50 | on success every converter holds the word of factor times gain, which is what `Converter.ConvertsExactly` says of it |
| Blocks.LargestProductIsClamped | lib/platform-lucidac/src/block/cblock.h:104-106 | both setters accept the largest factor and the largest correction, and the converter ends up more than a step away from their product |
| Converter.RawRoundTrip | lib/hal-lucidac/src/chips/AD5452.cpp:14-24 | every word is what the factor it stands for converts to |
| Converter.ConvertsExactly | lib/hal-lucidac/src/chips/AD5452.cpp:14-24 | a factor comes back from its word within one step if and only if it lies less than a step beyond the words' range |
| Converter.OneAndZero | lib/hal-lucidac/src/chips/AD5452.cpp:14-20 | the words of one, zero, minus one and of everything beyond 1.1 |
| Blocks.CBlock.Reset | lib/platform-lucidac/src/block/cblock.cpp:52-61 | a circuit reset makes all factors one, a calibration reset all gains |
| Blocks.IBlock.Connect | lib/platform-lucidac/src/block/iblock.cpp:55-76 | succeeds exactly if no other output has the input or splitting is allowed; adds just that connection, or makes it the only one |
| Blocks.IBlock.Disconnect | lib/platform-lucidac/src/block/iblock.cpp:203-209 | removes exactly that connection, if it is there |
| Blocks.IBlock.WriteToHardware | lib/platform-lucidac/src/block/iblock.cpp:21-23 | on success chips and upscaling register hold the configuration |
| Routing.ConnectKeepsSignalsExactly | lib/platform-lucidac/src/block/ublock.cpp:53-71 | a new connection leaves all other lanes' signals alone if and only if its side needs no switching or has no lane |
| Routing.ConnectedCallExactly | lib/platform-lucidac/src/carrier/cluster.cpp:242-273 | a call the U block takes does what it says, for every source, if and only if the gains of the lanes it disturbs cancel at every output and input |
| Routing.RefusedCallExactly | lib/platform-lucidac/src/carrier/cluster.cpp:242-273 | a call the U block refuses leaves all outputs alone if and only if the lane's upscaling already fits or does not matter |
| Routing.OneCallExactly | lib/platform-lucidac/src/carrier/cluster.cpp:242-273 | an accepted call adds just its term, upscaling making up for the factor 0.1, and a refused one changes no output, if and only if it is harmless |
| Routing.MeaningExactly | lib/platform-lucidac/src/carrier/cluster.cpp:242-273 | over every run, refused calls included, the circuit means its accepted calls at every moment if and only if every call is harmless where it is made |
| Routing.SuccessfulRunExactly | lib/platform-lucidac/src/carrier/cluster.cpp:242-273 | over every run of successful calls the circuit means the calls in the end if and only if each was harmless: nothing repairs what one breaks |
| Routing.RegularRunsMean | lib/platform-lucidac/src/carrier/cluster.cpp:242-273 | successful routes on the regular side and constants always mean what they ask for |
| Routing.RunStaysComplete | lib/platform-lucidac/src/carrier/cluster.cpp:242-273 | over every run each lane feeds at most one output and is fed by the U block |
| Routing.RefusedCallChangesOutput | lib/platform-lucidac/src/carrier/cluster.cpp:243-250 | two calls from reset, the second refused, after which the first one's output is ten times too large |
| Routing.CallValues | lib/platform-lucidac/src/carrier/cluster.cpp:242-273 | what a call asks for at its output: factor times input, or the factor, its negative or nothing for the two references and ground |
| Routing.Cluster.Reset | lib/platform-lucidac/src/carrier/cluster.cpp:291-296 | U, C and I blocks are in the reset configuration, the SH block injects; gains are reset only if asked for |
| Routing.AlternativeRouteDisturbs | lib/platform-lucidac/src/carrier/cluster.cpp:242-273 | two successful calls from reset, a constant and a route, after which the constant is gone |
| Routing.Cluster.Route | lib/platform-lucidac/src/carrier/cluster.cpp:242-256 | succeeds exactly as in `Routing.RouteSucceedsExactly`, with that configuration; and the whole configuration after a refusal |
| Routing.Cluster.AddConstant | lib/platform-lucidac/src/carrier/cluster.cpp:258-273 | succeeds exactly as in `Routing.ConstantSucceedsExactly`, with that configuration; and the whole configuration after a refusal |
| Routing.RouteSucceedsExactly | lib/platform-lucidac/src/carrier/cluster.cpp:242-256 | a route succeeds if and only if the input exists, the lane is free, the factor is within 10.1 and the side is at its analog inputs or the input nowhere in use; then the coefficient is the factor, or a tenth of it upscaled beyond one, and nothing but this lane and the side's mode changes |
| Routing.ConstantSucceedsExactly | lib/platform-lucidac/src/carrier/cluster.cpp:258-273 | the same for a constant, which needs its signal on the b side, or inputs 14 and 15 unused, and an undivided reference unless it grounds |
| Routing.ApplyCalls | lib/platform-lucidac/src/carrier/cluster.cpp:242-273 | after any calls from reset, refused ones included, the configuration is `CircuitAfter`; with all calls harmless every output carries the sum of factor times source over the accepted ones, for every source |
| Calibration.CorrectedLanes | lib/platform-lucidac/src/carrier/cluster.cpp:162-177 | a measured lane's gain is within 0.1 of one, any other lane's is what it was |
| Calibration.PairsAreFull | lib/platform-lucidac/src/carrier/cluster.cpp:118-128 | exactly the pairs connected through both U and I block are visited |
| Calibration.PairsInOrder | lib/platform-lucidac/src/carrier/cluster.cpp:118-120 | they are visited output by output, lanes ascending, each once |
| Calibration.OnlyFullLanesChange | lib/platform-lucidac/src/carrier/cluster.cpp:118-187 | a complete calibration changes only gains of fully connected lanes, to within 0.1 of one |
| Calibration.GainMakesUpForLast | lib/platform-lucidac/src/carrier/cluster.cpp:162-177 | the gain of a measured lane times its last reading is one if the reading lies in 1/1.1 to 1/0.9, and else the gain is one |
| Calibration.CompleteCorrects | lib/platform-lucidac/src/carrier/cluster.cpp:118-187 | after a complete calibration that holds of exactly the fully connected lanes, and all others have the gain they had |
| Calibration.IsolatedReadsOne | lib/platform-lucidac/src/carrier/cluster.cpp:134-160 | while a lane is measured, the circuit the hardware holds gives exactly one at that output, whatever the inputs carry |
| Calibration.GroundedIsZero | lib/platform-lucidac/src/carrier/cluster.cpp:72-91 | while offsets are compensated every output is zero, whatever the coefficients, connections and inputs |
| Calibration.ReadsItsOutput | lib/platform-lucidac/src/carrier/cluster.cpp:157-168 | the channel that is read shows the output that is measured, given the group the SH block passes |
| Calibration.CalibrateOffsets | lib/platform-lucidac/src/carrier/cluster.cpp:72-91 | compensates once, with all lanes grounded in hardware, and restores the transmission modes, in memory and in hardware |
| Calibration.CalibrateLane | lib/platform-lucidac/src/carrier/cluster.cpp:134-187 | the reading is taken with this one coefficient at one and all others at zero, after compensating for just that; gain times reading is one, or the gain is one if the reading is not within 1/1.1 to 1/0.9 |
| Calibration.Restore | lib/platform-lucidac/src/carrier/cluster.cpp:189-219 | if no write fails, modes, reference, coefficients and upscaling are the given ones, in memory and in hardware, and offsets have been compensated for these coefficients |
| Calibration.CalibrateRoutes | lib/platform-lucidac/src/carrier/cluster.cpp:93-219 | for every sequence of readings, if no write fails, the user's configuration is back in memory and hardware, every fully connected lane was measured in isolation and its gain makes up for its last reading, no other gain changed, and success is reported exactly if all readings lie in 1/1.1 to 1/0.9 |
| DoubleBuffer.SampleInOrder | lib/computation/src/daq/daq.cpp:333-338 | a sample in time lands behind everything still to be delivered and destroys none of it, also while the first half's interrupt is outstanding |
| DoubleBuffer.ServeInOrder | lib/computation/src/daq/daq.cpp:127-144 | an interrupt flags the half that has just been completed |
| DoubleBuffer.TakeInOrder | lib/computation/src/daq/daq.cpp:154-207 | polling takes the oldest half |
| DoubleBuffer.DeliverInOrder | lib/computation/src/daq/daq.cpp:205-207 | what is delivered is the oldest outstanding data, while sampling goes on |
| DoubleBuffer.Ring.Interrupt | lib/computation/src/daq/daq.cpp:127-144 | for each half interrupts are takes plus the pending flag, unless overflow is flagged, and then not |
| DoubleBuffer.Ring.Take | lib/computation/src/daq/daq.cpp:160-204 | which part is chosen, with the tail count in size_t arithmetic; nothing after an overflow |
| DoubleBuffer.FinishExactly | lib/computation/src/daq/daq.cpp:174-204 | the final call gets everything out if and only if a flagged half leaves no tail, or nothing is flagged and the pointer is no leftover |
| DoubleBuffer.LeftoverPointerWraps | lib/computation/src/daq/daq.cpp:185-201 | with the pointer left at the second half and less than a half sampled, the tail count wraps past 2^32 |
| Recording.ScheduleDecides | lib/computation/src/daq/daq.cpp:127-207 | which samples are handed out, and when, depends on the interleaving and not on the samples |
| Recording.TrailIsPlaced | lib/computation/src/daq/daq.cpp:333-338 | at any moment of any run every slot holds the latest sample whose number is its own modulo the ring's size |
| Recording.PartIsDue | lib/computation/src/daq/daq.cpp:174-204 | a part of the ring is the next samples due if and only if their first place is where it starts, all have been taken and none is written over |
| Recording.HandedInOrderExactly | lib/computation/src/daq/daq.cpp:127-207 | for every interleaving, what has been handed out is the first samples in order if and only if every part was due when it was read |
| Recording.NumbersDecide | lib/computation/src/daq/daq.cpp:205-207 | values come out right whatever they are if and only if the numbers handed out ascend without a gap |
| Recording.DeliveryExactly | lib/computation/src/daq/daq.cpp:127-207 | for every interleaving, a run delivers exactly its samples in order, whatever their values, if and only if every part was due when it was read and the final call gets the rest |
| Recording.InTimeInOrder | lib/computation/src/daq/daq.cpp:127-207 | in a run in time, what is sampled is what has been delivered and what is outstanding |
| Recording.InTimeIsDue | lib/computation/src/daq/daq.cpp:127-207 | in a run in time every part is due when it is read |
| Recording.LateButInOrder | lib/computation/src/daq/daq.cpp:160-181 | being in time is not necessary: two interrupts before the first poll, and both vectors still come in order |
| Recording.OverflowStops | lib/computation/src/daq/daq.cpp:160-207 | for every interleaving, once overflow is flagged the flag stays and nothing more is handed out but a part already chosen, the final call included |
| Recording.Record | lib/computation/src/daq/daq.cpp:127-207 | for every interleaving the handler gets the samples behind the numbers handed out; for one in time without an outstanding interrupt at the end, these are exactly the samples in order if and only if the pointer started at the first half or at least half a buffer was sampled, or, with a half still flagged, there is no tail; with an overflow at any time the answer is false and the final call adds nothing |
| DoubleBuffer.SlowPolling | lib/computation/src/daq/daq.cpp:174-181 | with two halves flagged, both without overflow, the older one goes first if and only if it is the first half |
| DoubleBuffer.LateAtRingEnd | lib/computation/src/daq/daq.cpp:127-136 | served one sample late, the interrupt for the ring's end flags the first half |
| RunDataMessage.RowsFit | lib/communication/src/protocol/protocol_oob.h:53-65 | every message with at most 128 values fits the buffer |
| RunDataMessage.HeaderReads | lib/communication/src/protocol/protocol_oob.h:53-60 | the header as text, with each id between its quotes |
| RunDataMessage.TwoRowsRead | lib/communication/src/protocol/protocol_oob.cpp:56-81 | a block of two rows of two words as text, brackets, commas and end included |
| RunDataMessage.BufferReads | lib/communication/src/protocol/protocol_oob.cpp:88-132 | a framed and filled buffer reads as header, comma-joined bracketed rows, end and newline |
| RunDataMessage.WriteCell | lib/communication/src/protocol/protocol_oob.cpp:60-74 | writing one value touches neither brackets and commas nor any other value |
| RunDataMessage.Handler.Prepare | lib/communication/src/protocol/protocol_oob.cpp:88-112 | lays out header with both ids and the frame for half a ring buffer |
| RunDataMessage.Handler.Shorten | lib/communication/src/protocol/protocol_oob.cpp:37-50 | fewer rows: the frame stays right with its end moved up |
| RunDataMessage.Handler.Handle | lib/communication/src/protocol/protocol_oob.cpp:33-81 | sends exactly the printed message of the block, or nothing if it has more rows than laid out |
| RunDataMessage.SendRun | lib/communication/src/protocol/protocol_oob.cpp:33-112 | what a whole run sends, for every sequence of blocks |
| RunDataMessage.NothingLost | lib/communication/src/protocol/protocol_oob.cpp:33-57 | with row counts that never grow, every block is sent |
| WebSocketFrames.Swap32Exact | lib/communication/src/websockets/endpoint.cpp:49-56 | swapping undoes itself and turns the memory image into network byte order |
| WebSocketFrames.Swap16Exact | lib/communication/src/websockets/endpoint.cpp:145-154 | the same for 16 bits |
| WebSocketFrames.Swap64Exact | lib/communication/src/websockets/endpoint.cpp:58-69 | the same for 64 bits |
| WebSocketFrames.HeaderInNetworkOrder | lib/communication/src/websockets/endpoint.cpp:359-379 | a header is the two fixed bytes and the length in network byte order, as in section 5.2 of RFC 6455 |
| WebSocketFrames.HeaderOctets | lib/communication/src/websockets/endpoint.cpp:359-379 | the header octet by octet with the numbers of section 5.2 of RFC 6455: 0x80 and opcode, mask bit and length up to 125, or 126 and two octets, or 127 and eight |
| WebSocketFrames.XorTells | lib/communication/src/websockets/endpoint.cpp:193-197 | unmasking with another key octet than the masking one never gives the octet back |
| WebSocketFrames.UnmaskExactly | lib/communication/src/websockets/endpoint.cpp:193-197 | unmasking from the first octet undoes masking counted from elsewhere if and only if the key looks the same from there |
| WebSocketFrames.FrameRoundTrip | lib/communication/src/websockets/endpoint.cpp:200-247 | every frame of a peer, masked or not, in all three length encodings, parses back and uses exactly its bytes |
| WebSocketFrames.RemaskData | lib/communication/src/websockets/endpoint.cpp:381-385 | in place masking with the key counted from the start of the message |
| WebSocketFrames.Send | lib/communication/src/websockets/endpoint.cpp:387-411 | the bytes that leave for a frame, with the default key not applied |
| WebSocketFrames.SendRoundTrip | lib/communication/src/websockets/endpoint.cpp:381-411 | what is sent parses back if and only if unmasked or the key fits; the default key always fits |
| WebSocketFrames.ReadUntilSuccessfulOrError | lib/communication/src/websockets/endpoint.cpp:130-136 | failed reads are repeated until one succeeds or the connection ends; how many bytes it brings is known from the plan, and no byte is lost |
| WebSocketFrames.ReadData | lib/communication/src/websockets/endpoint.cpp:168-191 | returns exactly the next bytes, whatever short or failed reads occur |
| WebSocketFrames.ReadExtendedPayloadLength | lib/communication/src/websockets/endpoint.cpp:145-162 | a complete read gives the number in network byte order |
| WebSocketFrames.UnmaskData | lib/communication/src/websockets/endpoint.cpp:193-197 | combines every octet with its key octet |
| WebSocketFrames.ReceiveHead | lib/communication/src/websockets/endpoint.cpp:200-221 | gets the head at the front if its reads will be whole; otherwise the length or the mask is wrong or too few bytes are used |
| WebSocketFrames.ReceiveFrame | lib/communication/src/websockets/endpoint.cpp:200-247 | with a complete frame ahead, gives that frame and leaves exactly the rest if and only if the reads of its head will be whole, which stream and plan tell beforehand; payload reads do not matter |
| WebSocketFrames.UnhurriedIsWhole | lib/communication/src/websockets/endpoint.cpp:130-166 | if no read is cut below eight bytes, all heads are read whole |
| WebSocketEndpoint.StreamBuilder.First | lib/communication/src/websockets/message.h:89-111 | starts an assembly, or a bad one for an unknown type |
| WebSocketEndpoint.StreamBuilder.Append | lib/communication/src/websockets/message.h:113-127 | extends the content, or errs; before a first frame it errs whatever the uninitialised flag holds |
| WebSocketEndpoint.StreamBuilder.End | lib/communication/src/websockets/message.h:129-144 | completes the content, or errs |
| WebSocketEndpoint.Endpoint.HandleMessageInternally | lib/communication/src/websockets/endpoint.cpp:329-343 | pings are answered up to 125 octets, closes with the reason read in network byte order |
| WebSocketEndpoint.Endpoint.CloseConnection | lib/communication/src/websockets/endpoint.cpp:413-428 | sends one close frame with the reason in network byte order and closes the socket; on a closed one only keeps the reason |
| WebSocketEndpoint.Endpoint.HandleFrameInStreamingMode | lib/communication/src/websockets/endpoint.cpp:250-297 | behaves as the intended receiver, under both policies |
| WebSocketEndpoint.Endpoint.HandleFrameInStandardMode | lib/communication/src/websockets/endpoint.cpp:300-313 | behaves as the intended receiver |
| WebSocketEndpoint.Endpoint.HandleFrame | lib/communication/src/websockets/endpoint.cpp:315-326 | every frame takes the endpoint where the intended receiver goes, with the same message and reaction; opcodes 1, 2, 8, 9 and 10 are Text, Binary, Close, Ping and Pong |
| WebSocketEndpoint.DeliveredByFirstOctet | lib/communication/src/websockets/message.h:13-22 | from the bytes: a frame that begins with 0x81, 0x82, 0x88, 0x89 or 0x8A is delivered as Text, Binary, Close, Ping or Pong; 0x01, 0x02 and 0x80 begin and end fragments or are answered by closing with 1002 |
| WebSocketEndpoint.RepliesInOctets | lib/communication/src/websockets/endpoint.cpp:329-343 | a ping up to 125 octets comes back as opcode 10, a close as opcode 8 with the same reason if it is a known one, 1001 without one, none otherwise |
| WebSocketConversation.Client.SendData | lib/communication/src/websockets/client.cpp:188-222 | a message, or a fragment while streaming, or nothing when not connected |
| WebSocketConversation.Client.StartStream | lib/communication/src/websockets/client.cpp:226-240 | opens a streamed message unless one is open |
| WebSocketConversation.Client.EndStream | lib/communication/src/websockets/client.cpp:242-248 | closes the streamed message if one is open |
| WebSocketConversation.Client.SendControl | lib/communication/src/websockets/client.cpp:271-283 | control frames of at most 125 octets |
| WebSocketConversation.OperationOnWire | lib/communication/src/websockets/client.cpp:188-283 | the first octet of what each sending operation sends is 0x81, 0x82, 0x01, 0x02, 0x80, 0x89 or 0x8A, or 0x00 for a fragment inside a stream, and its last octets are the data; it says when nothing is sent |
| WebSocketConversation.Client.Perform | lib/communication/src/websockets/client.cpp:188-283 | what an operation appends to the wire starts with that octet and ends with the data |
| WebSocketConversation.OneOperation | lib/communication/src/websockets/client.cpp:188-283 | the frame of one operation takes the receiver along with what the operation means |
| WebSocketConversation.FramesMeanOperations | lib/communication/src/websockets/endpoint.cpp:250-326 | for every sequence of operations the receiver takes up all frames, delivers exactly the meant messages in order and answers exactly the pings |
| WebSocketConversation.CloseEndsIt | lib/communication/src/websockets/client.cpp:135-160 | after a close frame or a stray continuation nothing more reaches the application |
| WebSocketConversation.PoliciesAgreeExactly | lib/communication/src/websockets/endpoint.cpp:250-297 | for every sequence of frames the glued fragments are what the aggregate policy delivers if and only if no fragmented close is begun with something shown after it |
| WebSocketConversation.FragmentedCloseTellsApart | lib/communication/src/websockets/endpoint.cpp:279-290 | three frames on which the policies differ |
| WebSocketConversation.PoliciesAgree | lib/communication/src/websockets/endpoint.cpp:250-297 | gluing the fragments of the notify policy gives what the aggregate policy delivers, protocol errors included, if no frame begins a fragmented close |
| WebSocketConversation.ReceiveAll | lib/communication/src/websockets/client.cpp:135-160 | polling to the end delivers the messages of all frames up to the one that closes and leaves the rest unread, if the heads of those frames will be read whole; payload reads do not matter |
| WebSocketConversation.Converse | lib/communication/src/websockets/client.cpp:188-283 | end to end over the bytes: exactly the meant messages in order, one pong per ping, interleaved control frames disturbing nothing, for every read plan that reads the heads whole, payload reads arbitrary |

## Left out

- SPI, GPIO, FlexIO registers, delays, Ethernet and the EEPROM's status register: replaced by the device models named above.
- JSON parsing and printing, message handlers, configuration from JSON, registry, network and vendor settings, authentication, plugin loader.
- Disconnecting whole outputs, external routes, M blocks: easy members beside the ones modelled.
- The other processor branches of the updater; the reboot is the end of a run, and the erase and write calls are taken not to fail, as in the modelled branch.
- The digest: an arbitrary function of the flash contents in the update, and the log of what the engine is fed in the hash buffering. The engine being busy, which the source answers by trying again, is not modelled.
- Floating-point rounding: coefficients, gains and readings are real numbers, and converter words are computed from them; the division by a zero reading is treated as out of range.
- Logging, the wording of errors and the progress report; that composing one error text reads a null upgrade is modelled.
- FlashMemory.FlashMove: the destination is fixed to the start of the flash, as in the only call.
- FlashMemory.BufferInit: a flash erased below the reserve is not modelled, since the running code is in it; the search would leave it.
- FlashMemory.FindLastWord: excludes the same erased flash.
- FirmwareUpdate.Serve: chunks are shorter than 2^32 characters, the width of size_t; the announced length is not wrapped.
- Base64.Encode: inputs of 2^29 bytes and more, where the size computation wraps, are excluded; `Base64.EncodeSize` says so exactly.
- Base64.Decode: an output buffer of 3 GiB or more is excluded, for which the wrapped size of a text that starts with padding would fit.
- Base64.IndexFromSextet: a character outside the alphabet is an assertion in the source; it is taken as compiled out and gives index 0.
- HashFeed.HashContext.Update: chunks are shorter than 2^32 less one block, so that size_t does not wrap.
- Factorize.Factorize: the root is the exact integer root, not one computed in floating point, and input plus tolerance stay below 2^64. Inputs below the tolerance, on which the loop does not end, are excluded; `Factorize.StopsExactly` says so exactly.
- RunPlan.TakeSamples: a failed allocation and the waiting times are not modelled; a negative sample count cannot arise.
- RunPlan.PlanIsAccurate: excludes the division by zero, which occurs without channels and with an operation time below 16384 us; `RunPlan.PeriodIsZero` says so exactly.
- UMatrix.Transfer: the read-back comparison of a debug build is not modelled.
- Blocks.CBlock.SetGainCorrection: the source lets index 32, one past the end, through; no caller passes it.
- Blocks.UBlock.WriteToHardware: the hardware is the map and the mode register as a whole; the bytes of the map are in `UMatrix`.
- DoubleBuffer.Ring.Sample: the buffer is an array of sample vectors, each of as many words as there are channels, instead of single words.
- Recording.Record: an inactive acquisition (no channels) is not modelled; registers and flags are one record field of the ring.
- RunDataMessage.Handler.Prepare: ids have their documented lengths and the channel count is positive.
- RunDataMessage.Handler.Handle: a value's text is an arbitrary function to six characters; a block has at least one row, as the acquisition never hands over an empty one.
- WebSocketFrames.Socket.Read: a socket becomes unavailable when read after the peer has sent everything, and when it has been closed, as the source's comment says; its code tests a pointer. On streams with enough data the first makes no difference; after the second the network library has nothing more to read.
- WebSocketFrames.ReceiveFrame: running out of memory for a huge announced length is not modelled; bits the header reserves are ignored, as in the source.
- WebSocketConversation.Converse: closing by the sending application and the handshake are not modelled; payloads are shorter than 2^64 octets.
