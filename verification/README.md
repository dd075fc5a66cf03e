# Helix: models and proofs

Dafny models of the parts of Helix whose correctness is not visible from any single function, with proofs of what each
promises. `dafny verify dfyconfig.toml` checks everything. Nothing here was executed; every statement is about the model.

**The device screen, end to end.** LVGL flushes a rectangle; `DisplayStream` cuts it into an 8-byte header and pixel
chunks under a rolling session number; `BinaryFrame` wraps each chunk in a frame guarded by the checksum of
`FrameChecksum`, whose values `ChecksumValues` pins down; frames and log text share one UART; `SerialLink` splits the byte stream back into frames and text,
however the reads fall; `Framebuffer` reassembles rectangles and paints an RGB888 mirror. `Reassembly` states what any
chunks do to the mirror, `Completion` exactly when one of them completes a rectangle. `WholeRectangle` states what the
chunks of a real rectangle do, `LateTraffic` what their repeats do afterwards. `ScreenMirror` composes all of it: the
mirror is the device's screen. `LossyMirror` does the same for a damaged stream and says exactly when losses cost only
their own rectangles. `CornerPixel` is the one-pixel rectangle of the examples.

**The pointer queue.** `PointerQueue` is the single-producer single-consumer ring, with every atomic load, store and slot
copy a step of its own and both sides interleaved arbitrarily, across wrap-around of the counters.

**Request routing.** `RequestRoutes` is the 16-slot ring of the service endpoint, proved to refine a map that forgets its
oldest entry. `ResponseDelivery` interleaves any number of transport tasks over it.

**The contract compiler.** `SchemaOrder` is the dependency ordering with cycle detection; `WireConverter` the generated
pair `convert_value` / `to_wire_value`.

**Smaller cores.** `FileSender` (backpressure), `OfferLog` (offers, snapshots, failure counters), `WebSocketFrame` (the
latency client's codec), `ManagedEnv` (merging managed keys into a `.env`).

`Bytes` holds the integers and bytes they share. Loops and in-place updates of the original are methods, mostly of a class
holding the same fields; each is tied by its postconditions to a specification function, and the theorems are lemmas
about those functions.

## What the proofs found

- *Re-emission.* Converting and emitting a wire value twice is not always the same as once. `convert_value` lets a null
  through for a required field, `to_wire_value` then leaves the field out, and the next conversion raises for want of it.
  `WireConverter.ReemitTwice` says exactly when it works, `WireConverter.RequiredNullBreaks` exhibits a value for which it
  does not.
- *Late repeats.* A repeat after completion is not always without effect. A rectangle is painted again if and only if
  its header and then every other piece of it arrive once more before its next header (`LateTraffic.RepaintedExactly`);
  a single repeat is enough when the rectangle was a single chunk. That changes a pixel exactly when one had been painted
  over since (`WholeRectangle.CompletingChanges`), as in `LateTraffic.OverpaintedRepeat`.
- *Chunk size.* The serial carrier takes a flush whole exactly when `max_chunk` is at most 1024 or the whole message fits
  in 1024 bytes (`DisplayStream.FlushSendable`); the display driver itself accepts any size above 8.
- *What completes a rectangle.* The documentation (docs/16-Device-UI-LVGL.md:61-64) has a rectangle applied only once every
  byte of it has arrived, and so it is (`Reassembly.PaintsOnlyWhatArrived`). It is not always applied as soon as every byte has
  arrived: the code adds up the lengths received, so an overlap can reach the size before the last byte is in, and the
  rectangle is dropped (`Completion.OverlapDrops`). `Completion.AppliedExactly` says exactly when a rectangle is applied;
  without overlaps it is applied as soon as every byte has arrived (`Completion.PaintedWhenAllArrived`).
- *A damaged frame.* The documentation (docs/16-Device-UI-LVGL.md:66-70) has it cost exactly one rectangle. That holds for any
  losses within one round of the 16-bit session number (`LossyMirror.OneRoundIsSafe`). Beyond it, a flush whose header was
  lost can fill the hole in a rectangle left behind 65536 flushes earlier (`LossyMirror.StaleHeaderAdopts`).
  `LossyMirror.LossesExactly` gives the exact condition for runs of any length, and
  `LossyMirror.LossesCostOnlyTheirRectangles` a condition on the pattern of losses alone. On the wire, a damaged frame is text
  and nothing more exactly when no frame starts inside it (`SerialLink.BurstCostsOneFrame`,
  `SerialLink.InnerFrameSurfaces`).

## Model

| member | source | states |
|---|---|---|
| FrameChecksum.Shift | embedded/esp32/transports/src/helix_transport_serial.c:22-31 | The bit loop, from any register, equals the checksum register defined by recursion from the last byte. |
| FrameChecksum.ComputeFrameCrc | embedded/esp32/commands/simulator.py:72-81 | The host's loop computes the same checksum function as the firmware's, so the two ends agree bit for bit. |
| FrameChecksum.RegisterAppend | embedded/esp32/transports/src/helix_transport_serial.c:329-331 | Carrying the register from the header over to the payload gives the register of the two concatenated. |
| FrameChecksum.RegisterOfWindow | embedded/esp32/commands/simulator.py:76-80 | Up to four bytes act on the register as one xor of their packed 32-bit word followed by plain bit steps. |
| FrameChecksum.RegisterInjective | embedded/esp32/commands/simulator.py:76-80 | Different registers stay different under the same further bytes: each bit step is a bijection of 32-bit words. |
| FrameChecksum.BurstDetected | embedded/esp32/commands/simulator.py:72-81 | Two bodies that differ only inside a window of at most four consecutive bytes never share a checksum. |
| ChecksumValues.CrcOfNothing | embedded/esp32/commands/simulator.py:72-81 | The checksum of no bytes is 0. |
| ChecksumValues.CrcOfOne | embedded/esp32/commands/simulator.py:72-81 | The checksum of the byte 0x41 is 0xD3D99DEF. |
| ChecksumValues.CrcOfTwo | embedded/esp32/commands/simulator.py:72-81 | The checksum of the bytes 0x31 0x32 is 0x3EE2C925. |
| ChecksumValues.Residue | embedded/esp32/commands/simulator.py:72-93 | The residue law: any body followed by its own checksum, as it goes over the wire, leaves the one constant 0xC4E5FCDD in the register. |
| BinaryFrame.SendBinary | embedded/esp32/transports/src/helix_transport_serial.c:302-346 | The firmware's shift-and-mask encoder writes exactly the frame the host's encoder builds, and refuses in exactly the cases not started, empty and longer than 1024. |
| BinaryFrame.FrameBytes | embedded/esp32/commands/simulator.py:84-94 | The frame on the wire byte by byte: marker 2, version 1, session, offset and length low byte first, payload, checksum. |
| BinaryFrame.ParseBuilt | embedded/esp32/commands/simulator.py:84-138 | Decoding an encoded frame, whatever bytes follow, returns its fields and its exact size. |
| BinaryFrame.BuildParsed | embedded/esp32/commands/simulator.py:108-138 | Every accepted frame re-encodes to the very bytes it consumed. |
| BinaryFrame.VerdictStable | embedded/esp32/commands/simulator.py:108-138 | A verdict other than incomplete is unchanged by any bytes that arrive later. |
| BinaryFrame.IncompleteIsShort | embedded/esp32/commands/simulator.py:117-130 | A buffer judged incomplete is shorter than one maximal frame. |
| BinaryFrame.IncompleteExactly | embedded/esp32/commands/simulator.py:117-130 | A buffer is undecided exactly while its ten header bytes are not in, or they announce version 1 and a length of 1 to 1024 and the frame is not in; anything else wrong is rejected at once. |
| BinaryFrame.ParseFromSuffix | embedded/esp32/commands/simulator.py:108-138 | Decoding at an index depends on the bytes from there on only. |
| BinaryFrame.DamagedFrameRejected | embedded/esp32/commands/simulator.py:121-134 | A frame hit by any burst of up to four body bytes, its length bytes intact, is rejected as invalid. |
| BinaryFrame.DamagedTrailerRejected | embedded/esp32/commands/simulator.py:131-134 | A frame whose checksum bytes alone were changed, in any way, is rejected as invalid. |
| SerialLink.Link.Pump | embedded/esp32/commands/simulator.py:188-192 | One read leaves the leftover, the frames and the text that splitting the old leftover plus the new bytes yields; an empty read changes nothing. |
| SerialLink.Link.SplitBuffer | embedded/esp32/commands/simulator.py:194-227 | The in-place loop over the buffer equals the recursive split of the whole buffer, frames and text appended in stream order. |
| SerialLink.Link.PollFrames | embedded/esp32/commands/simulator.py:238-243 | Polling reads once more and hands out every frame received so far in order, leaving none behind. |
| SerialLink.Conservation | embedded/esp32/commands/simulator.py:205-227 | Re-encoding the items in order and appending the leftover gives back the input: each byte belongs to exactly one text byte, frame or leftover. |
| SerialLink.BoundedWithholding | embedded/esp32/commands/simulator.py:205-227 | At most 1037 bytes stay undecided, and they begin with a marker whose frame is still incomplete. |
| SerialLink.DemuxIncremental | embedded/esp32/commands/simulator.py:188-227 | Splitting a prefix early and continuing from its leftover gives the split of the whole. |
| SerialLink.SplitInvariance | embedded/esp32/commands/simulator.py:188-227 | For every byte stream, damaged or not, and every way of cutting it into reads, frames, text, order and leftover are those of reading it at once. |
| SerialLink.DemuxWire | embedded/esp32/commands/simulator.py:194-227 | A stream of frames and marker-free text is read back exactly, whatever follows it. |
| SerialLink.TextOfText | embedded/esp32/commands/simulator.py:205-227 | Text items are exactly their bytes and contribute no frame. |
| SerialLink.ChunksOfFrames | embedded/esp32/commands/simulator.py:205-227 | Frame items are exactly their session, offset and payload, and contribute no text. |
| SerialLink.ProjectionsAppend | embedded/esp32/commands/simulator.py:205-227 | In a mixture text and frames each keep their own order. |
| SerialLink.DemuxDead | embedded/esp32/commands/simulator.py:215-220 | Once a frame's worth of bytes has followed, a damaged region comes out as text byte for byte, and what follows is read as if it stood alone, if and only if no position inside the region starts a valid frame. |
| SerialLink.Resynchronises | embedded/esp32/commands/simulator.py:194-227 | Every intact frame and text byte before and after a damaged region is delivered in order, and the region itself is text, if and only if no frame starts inside it. |
| SerialLink.DemuxSegments | embedded/esp32/commands/simulator.py:194-227 | The same for any number of damaged regions in one stream. |
| SerialLink.BurstCostsOneFrame | embedded/esp32/commands/simulator.py:197-203 | A burst of up to four body bytes in one frame turns that frame into text and costs no other, if and only if the frame's remaining bytes do not spell out a frame; its own marker never starts one. |
| SerialLink.InnerFrameSurfaces | embedded/esp32/commands/simulator.py:215-225 | The case that fails: a whole frame inside a damaged region, in the payload of a damaged frame for instance, starts a frame there. |
| DisplayStream.Display.Configure | ui/src/helix_ui_display_stream.c:85-103 | The configuration is taken exactly when there is a write callback, the screen is not empty, and the chunk size is the default or leaves room for more than the header. |
| DisplayStream.Display.FillFirst | ui/src/helix_ui_display_stream.c:46-54 | Assembling the first chunk in the 1032-byte buffer never overruns it nor underflows its capacity, and yields header then leading pixels, for every legal chunk size. |
| DisplayStream.Display.Flush | ui/src/helix_ui_display_stream.c:19-83 | A flush takes the next session number and hands the carrier the stamped pieces of header and pixels in order, up to and including the first it refuses, whose error it returns. |
| DisplayStream.Display.FlushRemaining | ui/src/helix_ui_display_stream.c:68-82 | The loop hands out the remaining pixels in pieces at consecutive offsets, stopping at the first refusal. |
| DisplayStream.AcceptedPrefix | ui/src/helix_ui_display_stream.c:63-81 | The flush reports success exactly when the carrier accepts every chunk. |
| DisplayStream.HandedOutAll | ui/src/helix_ui_display_stream.c:56-82 | A carrier that refuses nothing is handed the whole flush and no more. |
| DisplayStream.FlushIsCut | ui/src/helix_ui_display_stream.c:30-82 | Every flush is cut into pieces of 1 to max_chunk bytes whose concatenation is exactly header then pixels, the first within its buffer. |
| DisplayStream.FlushIsPacked | ui/src/helix_ui_display_stream.c:30-82 | No chunk is smaller than it has to be: the first is as full as max_chunk and the 1032-byte buffer allow, every other but the last has exactly max_chunk bytes. |
| DisplayStream.RectHeaderBytes | ui/src/helix_ui_display_stream.c:13-38 | The rectangle header is x1, y1, x2 and y2 in that order, low byte first. |
| DisplayStream.StampedAt | ui/src/helix_ui_display_stream.c:69-76 | Chunk i carries piece i under the flush's session at the offset where piece i starts, modulo 2^32. |
| DisplayStream.FlushSendable | ui/src/helix_ui_display_stream.c:30-50 | The serial carrier accepts every chunk of a flush if and only if max_chunk is at most 1024 or the message is at most 1024 bytes. |
| Framebuffer.AssemblePayload | tooling/ui/framebuffer.py:25-38 | Filling the buffer in insertion order gives the last covering chunk's byte everywhere, and nothing if a chunk sticks out or a byte is uncovered. |
| Framebuffer.LastWins | tooling/ui/framebuffer.py:29-35 | Of overlapping chunks the last in the dictionary's order decides a byte. |
| Framebuffer.PutPlaces | tooling/ui/framebuffer.py:69 | A chunk at an offset already held replaces that chunk in its place; one at a new offset goes last. |
| Framebuffer.Recoverable | tooling/ui/framebuffer.py:89-97 | The RGB565 value can be read back from the three painted channels, and white stays white. |
| Framebuffer.Framebuffer.Ingest | tooling/ui/framebuffer.py:52-81 | One chunk updates pending rectangles, pixels and both counters as the value-level step says, on every accepting, ignoring and dropping path. |
| Framebuffer.Framebuffer.Blit | tooling/ui/framebuffer.py:83-97 | The nested loops write exactly the rectangle's pixels, stay inside the buffer, and leave every other byte as it was; which bytes make a pixel is fixed by ScreenMirror.SourceIsColour. |
| Framebuffer.Framebuffer.constructor | tooling/ui/framebuffer.py:44-50 | A new mirror is black, with nothing pending or counted. |
| Reassembly.StaysValid | tooling/ui/framebuffer.py:52-81 | Whatever chunk arrives, every pending rectangle lies inside the mirror and its size matches its bounds. |
| Reassembly.StepCases | tooling/ui/framebuffer.py:54-81 | A step ignores the chunk or keeps it, or ends the rectangle as soon as the received lengths reach its size, painting it if the chunks spell it out and dropping it if not; nothing else can happen. |
| Reassembly.TracedRun | tooling/ui/framebuffer.py:54-70 | After any run a session has a rectangle pending exactly when a header of it has arrived since which the lengths kept have never reached the size; it then holds exactly the chunks kept since that header. |
| Reassembly.CompletedStep | tooling/ui/framebuffer.py:70-81 | A step that reports completion had every byte of the message covered by chunks lying inside it, and painted exactly that rectangle. |
| Reassembly.PaintsOnlyWhatArrived | tooling/ui/framebuffer.py:25-97 | After arbitrary chunks a step changes no pixel unless it completes a rectangle; then exactly its pixels change, and each byte painted was carried at that position by a chunk of its session, lying inside its message and received no earlier than its own header. |
| Completion.CoveredReached | tooling/ui/framebuffer.py:21-23 | Chunks that cover a message have lengths that add up to its size, so a covered rectangle is never left waiting. |
| Completion.AppliedExactly | tooling/ui/framebuffer.py:52-81 | For every run whatsoever a chunk completes a rectangle if and only if, since the last header of its session, the lengths kept one per offset had not reached the size before, and with this chunk they lie inside the message and cover it. |
| Completion.PaintedWhenAllArrived | tooling/ui/framebuffer.py:52-81 | If the chunks since a header lie inside its message and do not overlap, repeats apart, the rectangle is painted by exactly the chunk with which every byte of it has arrived. |
| Completion.OverlapDrops | tooling/ui/framebuffer.py:70-77 | A run in which every byte of a rectangle arrives, in chunks inside its message, and which never paints it: an overlap makes the lengths reach the size while a byte is missing, and the rectangle is dropped. |
| WholeRectangle.HeaderStep | tooling/ui/framebuffer.py:54-71 | The header chunk starts the rectangle afresh whatever the session held before, and completes it alone when it is the only chunk. |
| WholeRectangle.OwnStep | tooling/ui/framebuffer.py:63-81 | A repeat before completion changes nothing at all, the last missing chunk completes with the original pixels, any other is kept. |
| WholeRectangle.OtherStep | tooling/ui/framebuffer.py:63-81 | Chunks of other sessions do not disturb a rectangle being collected. |
| WholeRectangle.LateRepeat | tooling/ui/framebuffer.py:54-67 | Onto a free session a repeated chunk completes exactly when the rectangle was a single chunk, and changes a pixel exactly when, besides, a pixel of it has been painted over since. |
| WholeRectangle.CompletingChanges | tooling/ui/framebuffer.py:83-97 | Completing a rectangle changes a pixel exactly when the mirror does not show it already; afterwards the mirror shows it. |
| WholeRectangle.RepaintedSame | tooling/ui/framebuffer.py:83-97 | Painting the same rectangle twice is painting it once. |
| WholeRectangle.CollectsInAnyOrder | tooling/ui/framebuffer.py:52-81 | While a chunk is missing the rectangle stays pending and holds exactly what arrived, in whatever order, with repeats, among other sessions. |
| WholeRectangle.OrderIndependence | tooling/ui/framebuffer.py:21-81 | After the header chunk the rectangle completes exactly when its last distinct chunk arrives, in any order, with repeats and other sessions between, and paints the original pixels. |
| WholeRectangle.InOrder | tooling/ui/framebuffer.py:52-81 | The chunks of one flush in order paint it, count it once and leave its session free. |
| LateTraffic.RepaintedExactly | tooling/ui/framebuffer.py:52-81 | For every run after completion of repeats, headers included, among chunks of other sessions: the rectangle is painted again if and only if the run holds its header followed by every other piece before the next header; what is painted is the same rectangle, and a pixel changes exactly when one had been painted over since. |
| LateTraffic.RepeatsAloneChangeNothing | tooling/ui/framebuffer.py:52-81 | Repeats of a shown rectangle alone, in any order and number, change no pixel. |
| LateTraffic.OverpaintedRepeat | tooling/ui/framebuffer.py:52-97 | A white pixel is painted over in black and its chunks, one or two of them, arrive once more: the mirror turns white again. |
| ScreenMirror.PumpSession | tooling/ui/session.py:185-192 | One pump equals one read of the link followed by ingesting each of its frames in order; the result counts the rectangles applied. |
| ScreenMirror.SourceIsColour | tooling/ui/framebuffer.py:84-89 | Column i, row j of a rectangle is read from the two bytes, low byte first, at which a row-major array of RGB565 values holds it. |
| ScreenMirror.DeviceStreams | ui/src/helix_ui_display_stream.c:19-83 | Flush after flush to an accepting carrier yields the stream of all flushes under consecutive session numbers, every flush reporting success. |
| ScreenMirror.StreamedSendable | ui/src/helix_ui_display_stream.c:30-82 | With max_chunk at most 1024 the firmware's frame encoder refuses no chunk of any flush. |
| ScreenMirror.HostRunIsFeed | tooling/ui/session.py:185-192 | Reading and ingesting by turns is ingesting what the whole stream holds. |
| ScreenMirror.StreamMirrors | tooling/ui/framebuffer.py:52-97 | The chunks of any sequence of flushes of RGB565 values leave every drawn pixel showing the screen's value, the screen being drawn from the values and not from their bytes; every flush is applied and nothing dropped. |
| ScreenMirror.EndToEnd | embedded/esp32/commands/simulator.py:188-243 | For every sequence of in-bounds flushes, any marker-free log text between frames and every cut into reads: every pixel that was right before or was drawn shows the device's value, all flushes are applied, nothing is dropped, pending or undecided, and the text is exactly the log. |
| ScreenMirror.LastDrawn | ui/src/helix_ui.c:16-35 | What the screen holds at a pixel is the value, row-major, that the last flush to cover it gave it. |
| ScreenMirror.PixelForPixel | tooling/ui/framebuffer.py:84-97 | End to end in numbers: column i, row j of every flush, unless a later one covers it, is three bytes of the mirror at its place, five, six and five bits of the flushed value, each widened by repeating its leading bits. |
| ScreenMirror.EndToEndFromBlack | tooling/ui/framebuffer.py:44-50 | From a black start the whole mirror equals the whole screen, pixel for pixel, drawn or not. |
| LossyMirror.OrphansDropped | tooling/ui/framebuffer.py:63-67 | Without its header the chunks of a flush open nothing in any session, and on a free session complete nothing and move no pixel. |
| LossyMirror.HoleStays | tooling/ui/framebuffer.py:69-71 | A rectangle with a piece lost for good is never painted, whatever else of it arrives. |
| LossyMirror.PendingMeansBroken | tooling/ui/framebuffer.py:61-71 | Over any run of flushes and losses a session is pending only if the last header to arrive under its number belonged to a flush that lost a piece. |
| LossyMirror.LossesExactly | tooling/ui/framebuffer.py:52-81 | For runs of any length and any losses, the mirror shows and counts exactly the intact flushes if and only if no chunk of a flush whose header was lost completes a rectangle begun by another flush, which the offsets and lengths of what arrives decide. |
| LossyMirror.LossesCostOnlyTheirRectangles | embedded/esp32/commands/simulator.py:197-203 | For runs of any length: if, whenever a flush loses its header but not all else, the last flush of the same session number whose header arrived was intact, then the mirror shows and counts exactly the intact flushes. |
| LossyMirror.OneRoundIsSafe | ui/src/helix_ui_display_stream.c:40 | Any 65536 flushes in a row, one round of the session number, meet that condition whatever is lost. |
| LossyMirror.StaleHeaderAdopts | tooling/ui/framebuffer.py:61-81 | Beyond one round it can fail: the header of a broken pixel takes in the last byte of a pixel flushed 65536 flushes later whose header was lost, and a pixel nobody flushed is painted. |
| LossyMirror.EndToEndWithLosses | embedded/esp32/commands/simulator.py:194-227 | Byte for byte: a stream damaged in any number of places in which no frame starts, cut into reads anyhow, shows exactly the intact flushes if and only if none without its header completes another's rectangle, and always when no header is stale. |
| PointerQueue.Ring.Push | ui/src/helix_ui_input.c:11-24 | From rest, a push run to its end is the machine's call with that event and its five producer steps, or its first two when it refuses, and records the event exactly when it reports success. |
| PointerQueue.Ring.Pop | ui/src/helix_ui_input.c:26-38 | A pop run to its end performs the machine's consumer steps and hands out the event it removed, or reports an empty queue and moves nothing. |
| PointerQueue.DistanceIsOccupancy | ui/src/helix_ui_input.c:18-20 | The wrapped counters' difference is the true number of events in flight, since that never exceeds 16. |
| PointerQueue.SlotOfWrapped | ui/src/helix_ui_input.c:21-34 | Slots survive counter wrap-around because 16 divides the counter modulus. |
| PointerQueue.QueueSafety | ui/src/helix_ui_input.c:11-38 | In every interleaving the popped events are a prefix of the accepted ones, in order and untorn, at most 16 are in flight, and a slot being read is never being written. |
| PointerQueue.QueueRefinesIdeal | ui/src/helix_ui_input.c:11-38 | Over every run the list of actions alone decides the queue's history: the events pushed are those of the pushes that returned and the one under way, those accepted are the successful ones', in order, and those popped are the first of them. |
| PointerQueue.PushCompletes | ui/src/helix_ui_input.c:11-24 | In any reachable state a push and five of its steps accept exactly its event if fewer than 16 are in flight; otherwise two steps refuse it. |
| PointerQueue.PopCompletes | ui/src/helix_ui_input.c:26-38 | In any reachable state four steps of a poll pop exactly the oldest event in flight and show it to LVGL; with none in flight two steps show the last one again. |
| PointerQueue.RefusalsAreExact | ui/src/helix_ui_input.c:16-33 | A push is refused exactly when 16 events are in flight as it looks, and a pop finds nothing exactly when none is. |
| PointerQueue.StopsOnlyWhenDrained | ui/src/helix_ui_input.c:40-44 | `continue_reading` is set exactly when an event accepted by the time the head was read is still unread. |
| PointerQueue.SeenFromStart | ui/src/helix_ui.c:38-51 | In every interleaving the states LVGL sees are the popped events in order with only repeats inserted. |
| RequestRoutes.Endpoint.RememberRoute | embedded/protocol/src/helix_service_endpoint.c:30-48 | The scan and update in place equal remembering on the table value: a known id changes its transport where it stands, a new one takes the next slot; null or empty arguments change nothing. |
| RequestRoutes.Endpoint.FindRoute | embedded/protocol/src/helix_service_endpoint.c:50-65 | The scan finds the transport of the first slot holding the id, and none for a null, empty or unknown id. |
| RequestRoutes.Endpoint.AttachTransport | embedded/protocol/src/helix_service_endpoint.c:138-163 | A transport is attached once, at the first free place; the status says exactly when it was invalid, too early, already there or one too many. |
| RequestRoutes.Attach | embedded/protocol/src/helix_service_endpoint.c:147-161 | Attaching removes nobody, and the transport is in the table afterwards exactly when it was there or there was room. |
| RequestRoutes.FindRefines | embedded/protocol/src/helix_service_endpoint.c:50-65 | Looking up in the ring agrees with looking up in a map of at most 16 distinct ids. |
| RequestRoutes.RememberRefines | embedded/protocol/src/helix_service_endpoint.c:30-48 | The ring refines a 16-entry map that forgets its oldest entry; ids in it stay unique. |
| RequestRoutes.RunRefines | embedded/protocol/src/helix_service_endpoint.c:30-48 | The refinement holds over every run of requests. |
| RequestRoutes.RepeatKeepsAge | embedded/protocol/src/helix_service_endpoint.c:35-41 | A repeated id updates its transport but does not refresh its slot's age. |
| RequestRoutes.OthersAge | embedded/protocol/src/helix_service_endpoint.c:30-48 | Another request ages an entry by one exactly when it brings a new id, and evicts it only from the oldest place of a full map. |
| RequestRoutes.LastsExactly | embedded/protocol/src/helix_service_endpoint.c:30-65 | An entry is found, under its latest transport, exactly while its age and the new ids remembered since do not exceed 16 together; repeats of its own id change neither. |
| RequestRoutes.RoutedUntilSixteenMore | embedded/protocol/src/helix_service_endpoint.c:30-65 | From start-up, over any run, an id routes to the transport it last came from until 16 further new ids since its slot was filled, and to none from then on. |
| ResponseDelivery.EveryResponseArrives | embedded/protocol/src/helix_service_endpoint.c:75-117 | In every interleaving of receives, look-ups, broadcasts and attachments, with ids not shared between transports, each response answers a request that was received and reaches the transport it came from, alone if its route is known and within a broadcast otherwise. |
| ResponseDelivery.RequestIsServed | embedded/protocol/src/helix_service_endpoint.c:182-201 | After any run, receiving a request leaves its task serving it, under its id and source, until another is received on that task. |
| ResponseDelivery.RequestIsAnswered | embedded/protocol/src/helix_service_endpoint.c:75-117 | Whatever else happens, the task of a received request makes exactly one delivery when it answers, at its look-up or at the copy that follows, and makes it to the request's source. |
| ResponseDelivery.AttachedFromStart | embedded/protocol/src/helix_service_endpoint.c:138-163 | A transport attached at start-up stays attached over every run. |
| ResponseDelivery.BroadcastsOnce | embedded/protocol/src/helix_service_endpoint.c:97-112 | A broadcast addresses no transport twice. |
| ResponseDelivery.PresentInOrder | embedded/protocol/src/helix_service_endpoint.c:97-112 | A broadcast goes through the attached transports in table order. |
| ResponseDelivery.TableOfRun | embedded/protocol/src/helix_service_endpoint.c:182-201 | Whatever the interleaving, the table is the one its requests leave in the order their routes were remembered. |
| ResponseDelivery.RouteUntilSixteenMore | embedded/protocol/src/helix_service_endpoint.c:30-65 | In any interleaving an id routes to the transport it was last received from exactly until 16 further new ids have been remembered since its slot was filled. |
| ResponseDelivery.DirectUntilSixteenMore | embedded/protocol/src/helix_service_endpoint.c:75-117 | After any interleaving, a received request whose task then answers is delivered once, to its source alone until 16 further new ids have been remembered since it filled its slot, and afterwards by a broadcast that includes its source. |
| SchemaOrder.Sorter.Visit | tooling/protocol/commands.py:201-216 | A visit ends with its schema emitted after everything it references and the visits under way restored, or raises with a reference cycle through the reported name. |
| SchemaOrder.Sorter.Order | tooling/protocol/commands.py:195-220 | The loop over all schemas emits every one, or stops at a cycle. |
| SchemaOrder.ItemsAre | tooling/protocol/commands.py:207-212 | A schema references exactly the names its detailed fields give as strings under `items`. |
| SchemaOrder.OrderedMeansAcyclic | tooling/protocol/commands.py:195-220 | A dependency order of all schemas exists only when the references have no cycle, self-reference included. |
| SchemaOrder.SchemasInDependencyOrder | tooling/protocol/commands.py:195-220 | Terminates; raises if and only if the reference graph has a cycle, naming a schema on one; otherwise returns every schema exactly once after all it references, in the order declared except where a reference brings one forward. |
| WireConverter.RoundTrip | tooling/protocol/commands.py:705-755 | For every well-typed value of any schema set, converting what it is emitted as gives it back. |
| WireConverter.ConvertedIsShaped | tooling/protocol/commands.py:705-739 | What conversion accepts has the annotated shape, and its required fields are filled exactly when none arrived as a null that conversion lets through. |
| WireConverter.Reconverts | tooling/protocol/commands.py:705-755 | Converting an emitted value succeeds exactly when no required field is null, and then emits the same again. |
| WireConverter.ReemitTwice | tooling/protocol/commands.py:691-755 | On any accepted wire input, converting and emitting twice equals once if and only if no required field arrived as such a null; otherwise the second conversion raises. |
| WireConverter.RequiredNullBreaks | tooling/protocol/commands.py:691-755 | A concrete input for which it does raise: a required string sent as null. |
| WireConverter.BooleansAreTruths | tooling/protocol/commands.py:691-695 | A boolean field takes false for exactly the falsy values false, 0, 0.0 and the empty string, list and dictionary, and true for all else. |
| WireConverter.ListsFromOthers | tooling/protocol/commands.py:705-711 | A list field takes anything falsy as the empty list, a string by characters and a dictionary by keys; other values that are not lists raise. |
| WireConverter.RecordsFromOthers | tooling/protocol/commands.py:724-739 | A record takes anything falsy as the empty mapping, which is accepted exactly when no field is required; other values that are not mappings raise. |
| WireConverter.WireDropsNulls | tooling/protocol/commands.py:753-755 | Emitting a dictionary leaves out exactly its null entries and keeps the others in order under their keys. |
| FileSender.BackpressureHolds | experimental/p2p-transport/agent/main.go:259-288 | In every interleaving at most 1048576 bytes and two chunks are buffered, stale token included; what was sent is a prefix of the payload in full chunks but for the last, and all of it once the loop is left; the end is then announced as soon as the buffer is empty and not before. |
| FileSender.NoLostWakeup | experimental/p2p-transport/agent/main.go:259-277 | A sender blocks exactly on more than 1048576 buffered bytes; blocked, it has a token waiting or a low-water crossing still to come, and resumes however the network drains to the mark. |
| FileSender.AlwaysCanFinish | experimental/p2p-transport/agent/main.go:270-288 | From the start, and from every point of every run without a send error, some further run without one reaches the end with the whole payload sent. |
| FileSender.ErrorEnds | experimental/p2p-transport/agent/main.go:279-281 | After a send error nothing more is sent and the end is never announced. |
| FileSender.BoundIsReached | experimental/p2p-transport/agent/main.go:259-281 | The bound is tight: a run with a stale token reaches the limit and two chunks. |
| OfferLog.Catalog.UpsertOffer | tooling/catalog/db.py:174-263 | Inserting or updating in place equals the value-level upsert: a snapshot is added exactly for a new offer or a moved amount, status or quantity, and the failure state is cleared. |
| OfferLog.UpsertReports | tooling/catalog/db.py:174-278 | The report says whether the row was created, whether amount, status or quantity moved, its id and the amount before; exactly when it says changed one snapshot of the offer is added under that id, and the row shows the offer with its failures cleared. |
| OfferLog.Catalog.Fail | tooling/catalog/db.py:281-290 | Exactly the rows with the id count one more failure and carry the message cut to 300 characters; every other field, row and snapshot is untouched. |
| OfferLog.Catalog.Refresh | tooling/catalog/engine.py:286-343 | The loop applies each due row's outcome in order, and its statistics count the reads, the failures and the snapshots added. |
| OfferLog.HistoryIsFaithful | tooling/catalog/db.py:189-290 | Over every run each offer's snapshots are its observations with adjacent repeats removed, its row shows the last one in every stored field, its counter counts the failures since and its error is the last of them; rows stay unique by id and by vendor and url. |
| OfferLog.RefreshWithin | tooling/catalog/engine.py:300-321 | One refresh over rows due when it starts takes no row's failure counter past 5. |
| OfferLog.FailuresNeverExceedFive | tooling/catalog/engine.py:292-321 | In every run of a single agent, discoveries and refreshes in any order, no failure counter exceeds 5. |
| OfferLog.TurnsAreRun | tooling/catalog/engine.py:286-343 | Whatever one agent does, discoveries and refreshes, is a run of upserts and failures. |
| OfferLog.AgentHistory | tooling/catalog/engine.py:286-343 | So after any such run every offer's history is faithful and no failure counter exceeds 5. |
| WebSocketFrame.SendText | tooling/device/latency.py:211-228 | The header and masked payload appended step by step form one final masked text frame of RFC 6455. |
| WebSocketFrame.LengthIsMinimal | tooling/device/latency.py:215-224 | The shortest of the three length encodings that can hold the length is used, as section 5.2 of RFC 6455 requires. |
| WebSocketFrame.MaskedTwice | tooling/device/latency.py:225-242 | Unmasking undoes masking, section 5.3 of RFC 6455. |
| WebSocketFrame.ExamplesOfTheStandard | tooling/device/latency.py:215-227 | The frames of the examples in section 5.7 of RFC 6455: the masked text "Hello" byte by byte, and the two- and eight-byte lengths. |
| Bytes.XorBits | tooling/device/latency.py:227 | Masking sets a bit exactly where the bits of the byte and of the mask differ. |
| WebSocketFrame.DecodeEncoded | tooling/device/latency.py:211-243 | A frame below 2^63 bytes, masked or not, in any length form and whatever follows, decodes to its opcode, payload and exact size. |
| WebSocketFrame.Socket.RecvExact | tooling/device/latency.py:245-255 | However the socket fragments its bytes, exactly the next bytes asked for are returned, and the connection counts as closed only when fewer are left. |
| WebSocketFrame.Socket.RecvFrame | tooling/device/latency.py:230-243 | Reading a frame in fragments equals decoding the front of the unread stream, and consumes exactly that frame. |
| WebSocketFrame.ReceiveAll | tooling/device/latency.py:211-255 | For every sequence of payloads, any masks and any fragmentation, reading frame after frame returns opcode 1 and each payload in order, then the end. |
| ManagedEnv.MergeManaged | tooling/appliance/devenv.py:36-52 | The loop that pops managed keys as it meets them equals the merge defined line by line. |
| ManagedEnv.AssignmentsRecognised | tooling/appliance/devenv.py:8 | Every line of white space, an identifier, white space, an equals sign and anything is recognised as assigning that identifier. |
| ManagedEnv.RecognisedAssigns | tooling/appliance/devenv.py:8 | And no other line is recognised as assigning anything. |
| ManagedEnv.BreaksAre | tooling/appliance/devenv.py:40 | Lines end at the ten boundary characters of Python's `splitlines`. |
| ManagedEnv.SplitAtBreak | tooling/appliance/devenv.py:40 | A line ends at its first boundary, CR LF counting as one, and what follows is split by itself. |
| ManagedEnv.SplitLast | tooling/appliance/devenv.py:40 | A last line without a boundary counts unless it is empty. |
| ManagedEnv.GapIs | tooling/appliance/devenv.py:48-49 | A blank line is set before the banner exactly if the last line is not all white space. |
| ManagedEnv.RewriteIs | tooling/appliance/devenv.py:40-46 | Exactly the first assignment of each managed key is rewritten, to that key's value. |
| ManagedEnv.LeftOver | tooling/appliance/devenv.py:38-46 | What is left to append is exactly the managed settings no line assigns, in their order. |
| ManagedEnv.OthersSurvive | tooling/appliance/devenv.py:36-52 | Every line other than a managed key's first assignment survives verbatim in place; the settings no line assigns follow behind the banner, and nothing else is added. |
| ManagedEnv.ManagedWins | tooling/appliance/devenv.py:36-52 | After the merge the first assignment of every managed key carries its managed value. |
| ManagedEnv.MergeLinesTwice | tooling/appliance/devenv.py:36-52 | On lines, merging twice is merging once. |
| ManagedEnv.SplitJoin | tooling/appliance/devenv.py:40-52 | Lines without breaks, joined and ended with a newline, split back into themselves. |
| ManagedEnv.MergeTwice | tooling/appliance/devenv.py:36-52 | For every existing file and managed settings with identifier keys and single-line values, merging the text twice equals merging it once. |

## Left out

- Demultiplexed text is kept as bytes: decoding it per read with replacement characters is not independent of the reads.
- C weak memory: the pointer queue's atomics are interleaved single steps, and the acquire/release ordering that justifies
  this is an assumption; the counter type `uint_fast32_t` is taken to be 32 bits wide.
- Chunk dictionaries, pending rectangles and queued frames are held as values, so aliasing between Python objects is not
  modelled.
- ScreenMirror.EndToEnd: requires chunks the carrier takes (always so for a `max_chunk` of at most 1024, and otherwise exactly
  when DisplayStream.FlushSendable says so) and messages of at most 2^32 bytes, since the offset is 32 bits wide.
- LossyMirror.LossesCostOnlyTheirRectangles: its condition is sufficient and not necessary, since a stale header does no harm
  until something fills its hole; the condition that is both is the one of LossyMirror.LossesExactly. Neither counts
  the rectangles dropped.
- The firmware's receiver for inbound frames, JSON packets on the serial line, and the transmit lock.
- `stream_flush` receives its pixels from LVGL: that a flush covers its rectangle (ui/src/helix_ui.c:16-35) is the condition
  `Ready`. Carrier answers, socket fragments, page reads and mask bytes are parameters.
- PNG encoding, the viewer, and all timing: `settle`, `call`, `read_until`, rate limits.
- ResponseDelivery.EveryResponseArrives: says to whom a response is handed, not what `send_packet_json` then reports; the error
  merging of a broadcast is left out.
- The dispatcher between a request and its response (handler tables, invocation storage, payload ownership): a task answers
  with the id its request carried, any number of times.
- RequestRoutes.Endpoint.RememberRoute: ids are strings below 80 characters, the size of every id field on the way, so the
  truncation by `strlcpy` does not arise.
- WireConverter.RoundTrip: Python's `int`, `float` and `str` are parameters that fix values already of their type; floats are
  reals. Dictionary annotations are left out, since the generator never writes them, and so are collisions between
  Python attribute names and Python's recursion limit.
- The text templates of the contract compiler, contract validation and includes.
- FileSender.BackpressureHolds: assumes a positive chunk size and a buffer at or below the limit when sending starts; the meta
  and end messages are not counted in the buffer.
- OfferLog.HistoryIsFaithful: `details` stands for the stored fields that are not compared (title, sku, currency, source,
  notes); timestamps, the age and count limits of the due query, vendor and product tables, and violations of other
  unique keys are left out.
- WebSocket handshake, control frames and fragmented messages; the WebRTC signalling loop.
- Reading, writing and backing up `.env` files, and rendering a fresh one.
- ManagedEnv.MergeTwice: requires identifier keys and values without line breaks, which is what the appliance writes.
