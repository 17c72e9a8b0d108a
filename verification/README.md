# Greybus for Zephyr: a verified model

This project models the protocol core of the Greybus subsystem and proves what its parts promise to each other.
`dafny verify dfyconfig.toml` checks all of it.

- **HDLC link** (`Crc16`, `HdlcFormat`, `HdlcReceiver`, `HdlcLink`, `HdlcDriver`): the byte-stuffing sender and the
  byte-at-a-time receiver over its four state fields. The receiver is proved equal to a reference decoder that knows
  nothing of those fields, and sender and receiver to undo each other in any chunking, after any noise.
- **Greybus over HDLC** (`GreybusWire`, `UartTransport`): messages serialised into frames and parsed back.
- **Stream framing** (`Framing`, `I2cTransport`, `I2cSteps`, `TcpTransport`): one wire format parsed by a bounded
  ring with a work item and by a blocking short-read loop, both against one pure parser; the ring also with bytes
  arriving between the single steps of the work item.
- **Firmware download** (`FirmwareDownload`): 64-byte fetches that tile an image, with and without flash failures.
- **HID reports** (`Hid`, `HidThread`): five buffers between an interrupt callback and a sender thread, every
  interleaving.
- **Camera** (`Camera`, `CameraRequests`, `CameraLiveness`): the frame worker and the control thread, every
  interleaving; single requests from arrival to answer; the worker from one wake-up to the next.
- **Routing** (`Interfaces`, `Apbridge`): the interface table with its id allocator, the forward and reverse routes.
- **Bus transfers** (`Scatter`, `I2cTransfer`, `SpiTransfer`): two-pass scatter and gather over an op list.
- **Manifest** (`Manifest`): descriptors written through a cursor and walked back.

Objects that the source updates in place are classes whose methods are proved against functions on their abstract
state; the theorems are about those functions and about runs of them. Where two contexts run concurrently (`Hid`,
`Camera`, `I2cSteps`), each access of a thread to shared state is one step and a run is any sequence of steps.
Devices, the flash, sockets and the heap answer arbitrarily: an outcome is a parameter or a nondeterministic choice,
so the contracts hold for every answer. A flash write that fails may have taken any number of the leading bytes of
its block; it is assumed to leave alone what was taken before.

`crc16_ccitt` is a Zephyr library function and not part of the repository. It is taken as the check sequence of RFC
1662, Appendix C.2, which the seed, the complement and the value 0xf0b8 in `hdlc.c` fix.

What the proofs show about the code as it stands:

- A pending escape is not cleared by a flag. A frame that begins in that state is lost exactly when its address byte
  is an ordinary one, and never mistaken for another (`HdlcLink.FrameDelivered`); one stray escape byte is enough
  (`EscapeCostsFrame`).
- After a buffer overflow the check sequence restarts one byte late, so an over-long frame can be delivered
  truncated; `HdlcLink.OversizeFate` says exactly when, from every reachable state.
- A message above 256 bytes wedges the I2C link for good: neither it nor anything behind it is handled
  (`I2cTransport.OversizeWedges`, `I2cSteps.OversizeWedges`). A host gets through exactly what it sends before the
  first such message (`SessionDelivers`).
- The sixteen-bit fetch offset folds images above 65536 bytes (`FirmwareDownload.DownloadCompletes`,
  `LongImageDamaged`); a failed flash write neither stops the download nor prevents a validated report, and is
  reported under the image size instead of the request id (`ValidatedIff`, `FailureReportedUnder`). Either way an
  image can be reported validated that flash does not hold; `HoleValidatedIff` says exactly when.
- A report that arrives while the HID thread answers a request can cancel the next request, after which no report is
  ever accepted (`Hid.StuckIff`).
- The camera worker is scheduled before the video device is started, so a capture that is answered with an error can
  put fragments on the link, should the device hand out a buffer before that. It can if and only if the camera is
  configured, the request is well formed and the frame counter is not past the target
  (`CameraRequests.RefusedCaptureLeaksIff`), the first capture after connecting included (`FirstCaptureLeaks`).
  While the camera is not capturing, fragments leave on no other occasion but an accepted capture
  (`Camera.Quiescence`).
- A capture that meets a running stream is answered with success and its frame count ignored; that can happen
  exactly when it arrives while the stream runs (`CameraRequests.CaptureIgnoredIff`).
- `frame_id` is not reset when a capture starts, so a second capture delivers fewer frames than asked
  (`Camera.CaptureDelivers`), possibly none although it is accepted (`CameraRequests.SecondCaptureEndsShort`).
- SPI word sizes accumulate over the transfers of one request (`SpiTransfer.OwnWordSizeIff`).
- Interface ids are cut to eight bits, so in a table of more than 256 slots an allocated interface may be in no
  slot; `Interfaces.AllocatedIsFound` says exactly when, `AllocationLost` how that comes about.
- A create request on a taken AP slot fails after the node has been told (`Apbridge.CreateToldInVainIff`).
- The header `include/greybus/apbridge.h` calls connections between two AP cports unsupported; the code accepts them
  under the same conditions as any other (`Apbridge.CreatedIff`, `ApToApAccepted`).

## Model

| member | source | states |
|---|---|---|
| Crc16.GoodIffTrailer | subsys/greybus/transport/hdlc/hdlc.c:76 | The residue after a body is 0xf0b8 if and only if its last two bytes are the complement of the check sequence of the rest, low byte first, for every seed |
| Crc16.CrcSeedInjective | subsys/greybus/transport/hdlc/hdlc.c:117 | Over any fixed input the check sequence is an injective function of the register it started from |
| Crc16.StepInjective | subsys/greybus/transport/hdlc/hdlc.c:51 | One byte step is injective in the register and in the byte |
| Crc16.CrcIsBits | subsys/greybus/transport/hdlc/hdlc.c:51 | The bytewise code is the bit-serial division of the bytes, lowest bit first (RFC 1662, Appendix C.2) |
| Crc16.CrcOfPack | subsys/greybus/transport/hdlc/hdlc.c:51 | Dividing up to 16 bits is adding them to the register as one word and shifting that many times |
| Crc16.TwoSteps | subsys/greybus/transport/hdlc/hdlc.c:164-165 | Two byte steps are one addition of a 16-bit word and sixteen blank shifts, which is what makes the trailer work |
| Crc16.BurstDetected | subsys/greybus/transport/hdlc/hdlc.c:76 | Two inputs of one length that differ, and only within 16 consecutive bits at any offset, never share a residue |
| Crc16.AdjacentBytesDetected | subsys/greybus/transport/hdlc/hdlc.c:76 | In particular inputs that differ only inside two adjacent bytes |
| Crc16.GoodMeansEven | subsys/greybus/transport/hdlc/hdlc.c:76 | Every body with the good residue has an even number of one bits |
| Crc16.OddDistance | subsys/greybus/transport/hdlc/hdlc.c:76 | Two bit strings differ in an odd number of places exactly when the parities of their ones differ |
| Crc16.CheckValue | subsys/greybus/transport/hdlc/hdlc.c:76 | The digits 1 to 9 leave the register at 0x6f91, the check value of this code before the final complement |
| HdlcFormat.StuffHasNoFlag | subsys/greybus/transport/hdlc/hdlc.c:52-57 | A stuffed body contains no flag byte |
| HdlcFormat.UnstuffInverts | subsys/greybus/transport/hdlc/hdlc.c:109-116 | Unstuffing inverts stuffing for every byte string |
| HdlcFormat.UnstuffAfterEscape | subsys/greybus/transport/hdlc/hdlc.c:109-116 | With an escape pending, unstuffing damages the first byte and nothing else, and only when that byte is not itself escaped |
| HdlcFormat.EncodeTransparent | subsys/greybus/transport/hdlc/hdlc.c:149-169 | On the line the byte 0x7E is exactly the first and the last byte of a block |
| HdlcFormat.EncodeLength | subsys/greybus/transport/hdlc/hdlc.c:149-169 | The line is n + 6 bytes plus one per escaped body byte, hence between n + 6 and 2(n + 4) + 2 |
| HdlcFormat.StreamInjective | subsys/greybus/transport/hdlc/hdlc.c:149-169 | Two sequences of blocks with the same line bytes are the same sequence, whatever their lengths |
| HdlcFormat.StuffedBytes | subsys/greybus/transport/hdlc/hdlc.c:52-57 | On the line 0x7E becomes 7D 5E, 0x7D becomes 7D 5D, and every other byte itself |
| HdlcFormat.UnstuffedBytes | subsys/greybus/transport/hdlc/hdlc.c:109-116 | A byte behind 0x7D is read with exactly bit 5 inverted, any other as it is |
| HdlcFormat.LineLayout | subsys/greybus/transport/hdlc/hdlc.c:149-169 | A line is 0x7E, the stuffed body, 0x7E; the body is address, 0x03, payload, and the complemented check sequence of these from seed 0xffff, low byte first |
| HdlcDriver.Driver.constructor | subsys/greybus/transport/hdlc/hdlc.c:171-181 | A new driver is in the clean state and has delivered and sent nothing |
| HdlcDriver.Driver.PollOutCrc | subsys/greybus/transport/hdlc/hdlc.c:47-58 | Sends the stuffed form of one byte and advances the check sequence over the unstuffed byte |
| HdlcDriver.Driver.BlockSendSync | subsys/greybus/transport/hdlc/hdlc.c:149-169 | Sends exactly the encoded frame of this address and payload |
| HdlcDriver.Driver.SaveByte | subsys/greybus/transport/hdlc/hdlc.c:88-99 | Appends to the buffer, restarting it with this byte and a fresh check sequence when it is full |
| HdlcDriver.Driver.ProcessFrame | subsys/greybus/transport/hdlc/hdlc.c:74-86 | Delivers the frame exactly when the gate passes, and empties the buffer either way |
| HdlcDriver.Driver.InputByte | subsys/greybus/transport/hdlc/hdlc.c:101-120 | One byte moves state and deliveries as the receiver step says; a pending escape survives a flag |
| HdlcDriver.Driver.ProcessBuffer | subsys/greybus/transport/hdlc/hdlc.c:122-128 | A buffer of any length moves state and deliveries as running its bytes in order |
| HdlcReceiver.ChunksDoNotMatter | subsys/greybus/transport/hdlc/hdlc.c:122-147 | Any chunking of a line has the same effect as the whole line |
| HdlcReceiver.ReceiverCharacterised | subsys/greybus/transport/hdlc/hdlc.c:88-120 | After any line from power-on: the buffer is the last (n - 1) mod 512 + 1 of the n unescaped bytes since the last flag, the check sequence covers all of them up to 512 and all but the first buffered one beyond, an empty buffer has the seed, and what was delivered is what the reference decoder accepts |
| HdlcReceiver.RunIsDecode | subsys/greybus/transport/hdlc/hdlc.c:74-120 | From every reachable state the receiver equals a reference decoder that splits the line at flags, unstuffs each piece with the pending escape carried over, and compares trailers |
| HdlcReceiver.GoodIsTrailerMatch | subsys/greybus/transport/hdlc/hdlc.c:76 | The residue test and the trailer comparison agree on every body of at least two bytes |
| HdlcReceiver.LineExtends | subsys/greybus/transport/hdlc/hdlc.c:112-119 | A flag-free run of line bytes extends the body by what it unstuffs to and delivers nothing |
| HdlcLink.LinkRoundTrip | subsys/greybus/transport/hdlc/hdlc.c:47-169 | For every sequence of blocks with payloads of at most 508 bytes and every chunking of the line, each block is delivered once, in order, unchanged, and the receiver ends clean |
| HdlcLink.FrameFromAnyState | subsys/greybus/transport/hdlc/hdlc.c:74-120 | From every reachable state one encoded frame of any length leaves the receiver clean, and delivers what was pending if acceptable and then what is seen of the frame if acceptable |
| HdlcLink.FrameDelivered | subsys/greybus/transport/hdlc/hdlc.c:74-120 | A legal frame is delivered unless an escape was pending and its address is an ordinary byte, and then it is dropped for certain |
| HdlcLink.NoiseCostsAtMostOneFrame | subsys/greybus/transport/hdlc/hdlc.c:74-120 | After arbitrary noise at most the first frame is lost, under the exact condition above; every legal frame behind it arrives |
| HdlcLink.EscapeCostsFrame | subsys/greybus/transport/hdlc/hdlc.c:101-120 | A single escape byte of noise costs the next legal frame unless its address byte is itself escaped; a Greybus frame, with address 1, is lost |
| HdlcLink.DamagedRejected | subsys/greybus/transport/hdlc/hdlc.c:76 | A body whose first byte was toggled is always rejected |
| HdlcLink.GateNoticesBursts | subsys/greybus/transport/hdlc/hdlc.c:74-86 | If a body up to 512 bytes is accepted, no other of its length differing within 16 consecutive bits is |
| HdlcLink.GateNoticesAdjacentBytes | subsys/greybus/transport/hdlc/hdlc.c:74-86 | The same for differences inside two adjacent bytes |
| HdlcLink.GateNoticesOddFlips | subsys/greybus/transport/hdlc/hdlc.c:74-86 | The same for differences in an odd number of bits, anywhere |
| HdlcLink.OversizeFate | subsys/greybus/transport/hdlc/hdlc.c:90-94 | A frame with more than 508 payload bytes leaves a clean receiver from every reachable state and is never delivered as itself; a truncated one is delivered in its place if and only if at least four bytes stay buffered and the check sequence equals its seed at the cut, pending escape or not |
| HdlcLink.OversizeCanSlipThrough | subsys/greybus/transport/hdlc/hdlc.c:90-94 | Every address and 509-byte prefix extends to a 512-byte payload for which that happens |
| UartTransport.MessageHdlcSend | subsys/greybus/transport/uart.c:27-37 | Sends one frame to address 1 whose payload is the little-endian cport, the header and the message payload |
| UartTransport.ProcessFrameCb | subsys/greybus/transport/uart.c:39-67 | Refuses exactly a frame whose header announces more than arrived, or any when memory is refused; otherwise hands up a well-formed message that is the packet in the frame: cport, type, operation id, result and the announced part of the payload |
| UartTransport.GreybusOverHdlc | subsys/greybus/transport/uart.c:27-67 | For any list of messages of header size at most 506 and any chunking of the line, the packets in the frames handed up are the packets sent: same cport, type, operation id, result and payload, in order |
| UartTransport.GreybusFrameLayout | subsys/greybus/transport/uart.c:27-37 | The body of the frame of a message, byte by byte: address 1, control 3, cport, header, payload |
| UartTransport.PacketLayout | subsys/greybus/transport/uart.c:39-67 | From which bytes of a frame each field of the packet is read |
| GreybusWire.WireFields | subsys/greybus/transport/uart.c:43-57 | Every field and slice a receiver reads from the front of a framed message is the one that was sent |
| GreybusWire.WireLayout | include/greybus/greybus_protocols.h:46-52 | A framed message, byte by byte: cport, size, operation id, type, result, pad, payload, numbers low byte first |
| GreybusWire.HeaderLayout | include/greybus/greybus_protocols.h:46-52 | From which of eight bytes each field of a header is read |
| GreybusWire.AllocatedWellFormed | subsys/greybus/greybus_messages.c:27-44 | An allocated message announces exactly its payload and keeps every field but the pad bytes |
| Framing.DrainResumes | subsys/greybus/transport/i2c.c:39-86 | Taking messages early and again later gives what taking them once at the end gives, on any bytes |
| Framing.PrefixDrains | subsys/greybus/transport/i2c.c:39-74 | What can be taken off any prefix of a well-formed stream is a prefix of the messages sent; off the whole stream, all of them with nothing left |
| I2cTransport.RxRing.WriteReceived | subsys/greybus/transport/i2c.c:94-105 | Appends the byte, or drops it exactly when 256 bytes are waiting |
| I2cTransport.RxRing.RxTake | subsys/greybus/transport/i2c.c:39-74 | Takes the first message exactly when it is complete and memory is there; otherwise nothing changes |
| I2cTransport.RxRing.ProcessCb | subsys/greybus/transport/i2c.c:76-87 | Ends; hands up as many complete messages as there are allocations, in order, and leaves the rest |
| I2cTransport.TakingIsPartOfDrain | subsys/greybus/transport/i2c.c:76-87 | Running out of memory loses nothing, and with enough memory less than one whole message is left |
| I2cTransport.AlwaysConsistent | subsys/greybus/transport/i2c.c:76-105 | Under every order of arrivals and whole work items, on any bytes, the handled messages followed by the parse of the ring are the parse of all accepted bytes |
| I2cTransport.HandledIsPrefix | subsys/greybus/transport/i2c.c:76-105 | On a well-formed stream with no byte dropped, those are a prefix of what was sent, and all of it once everything has arrived and been drained |
| I2cTransport.SessionDelivers | subsys/greybus/transport/i2c.c:107-112 | Of a host that ends each message with a stop condition, exactly the messages before the first that does not fit the ring are handled, in order; all are handled if and only if all fit |
| I2cTransport.OversizeWedges | subsys/greybus/transport/i2c.c:94-105 | From any point at which the ring holds part of a message above 256 bytes, however its remaining bytes, later bytes and work items interleave, nothing is ever handled again |
| I2cTransport.OversizeNeverHandled | subsys/greybus/transport/i2c.c:94-105 | So once such a message is sent into an empty ring, no later event hands anything up |
| I2cTransport.FullRingStuck | subsys/greybus/transport/i2c.c:54-56 | With 256 bytes of a longer message in the ring, well formed or not, no later event changes anything |
| I2cTransport.FullRingMovesIffFits | subsys/greybus/transport/i2c.c:54-56 | A full ring gets room from a work item if and only if its first message is at most 256 bytes |
| I2cSteps.AlwaysConsistent | subsys/greybus/transport/i2c.c:39-105 | The same with bytes arriving between any two steps of a take, fill level, header, length check, allocation, cport, message: messages taken, then the parse of what is pending, are the parse of all accepted bytes |
| I2cSteps.HandledIsPrefix | subsys/greybus/transport/i2c.c:39-105 | So on a well-formed stream with no byte dropped they are a prefix of what was sent, and all of it once no whole message is pending |
| I2cSteps.EndsIff | subsys/greybus/transport/i2c.c:45-63 | The work item ends exactly when no whole message was there at its last look, or memory was refused |
| I2cSteps.WorkDrains | subsys/greybus/transport/i2c.c:76-87 | Left alone with memory, the work item ends with exactly the messages handed up that can be taken off the ring, in order, and the rest left |
| I2cSteps.StopDrains | subsys/greybus/transport/i2c.c:107-112 | A stop condition on an idle work item leads to that |
| I2cSteps.OversizeWedges | subsys/greybus/transport/i2c.c:45-105 | A message above 256 bytes is the end of the link under these interleavings too |
| I2cTransport.TxPipe.TransSend | subsys/greybus/transport/i2c.c:178-194 | Success exactly when the pipe takes the whole framed message; otherwise exactly the part there was room for is on the pipe |
| TcpTransport.ReadData | subsys/greybus/transport/tcpip.c:59-75 | Under every schedule of short receives: all bytes asked for, in place and in order, or end of stream, or an error, with the number of bytes taken |
| TcpTransport.WriteData | subsys/greybus/transport/tcpip.c:80-93 | Under every schedule of short sends: all bytes in order, or an error after a proper prefix |
| TcpTransport.TransSend | subsys/greybus/transport/tcpip.c:150-167 | Success means the whole framed message was sent, failure a proper prefix of it |
| TcpTransport.SendAll | subsys/greybus/transport/tcpip.c:150-167 | Messages sent one after the other put their concatenated frames on the socket, or a proper prefix of that up to the first failure |
| TcpTransport.MessageReceive | subsys/greybus/transport/tcpip.c:98-138 | Yields the first message of the stream when a whole one comes before the end, otherwise the closed flag with everything consumed; on an error or refusal less than the message is consumed, or all of it when it has no payload |
| TcpTransport.ReceiveUntilClosed | subsys/greybus/transport/tcpip.c:306-355 | One connection hands up exactly the packets that the pure stream parser takes off the same bytes |
| TcpTransport.StreamEquivalence | subsys/greybus/transport/tcpip.c:59-138 | The bytes that `SendAll` puts out for a list of messages are parsed back into that list by the ring-buffer parser, and satisfy what `ReceiveUntilClosed` asks, which hands up the same list: cport, type, operation id, result, payload |
| FirmwareDownload.Downloader.FindFirmware | subsys/greybus/fw_download.c:178-191 | Remembers the request id |
| FirmwareDownload.Downloader.FindFirmwareResponse | subsys/greybus/fw_download.c:58-76 | A failed response changes nothing; a successful one starts at offset 0 with empty flash and asks for 64 bytes |
| FirmwareDownload.Downloader.FetchFirmwareResponse | subsys/greybus/fw_download.c:119-156 | A failed response changes nothing; a successful one advances the offset, asks on or releases, then writes, then reports, as the step function says, whatever part of a failed write stays |
| FirmwareDownload.Downloader.FetchFinal | subsys/greybus/fw_download.c:98-117 | Reports under its eight-bit request id, as validated with the version only when the header is readable and the upgrade is accepted |
| FirmwareDownload.DownloadCompletes | subsys/greybus/fw_download.c:58-156 | For every 32-bit size: with all flash writes succeeding the run ends after max(1, ceil(size / 64)) responses with flash[i] = image[i mod 65536], one flushing write, the fetches in order, one release and one notification under the original request id; flash is the image if and only if the image repeats with that period, so always up to 65536 bytes |
| FirmwareDownload.LongImageDamaged | subsys/greybus/fw_download.c:35-56 | An image of 65537 bytes whose last byte differs from its first ends in flash with the first byte in place of the last |
| FirmwareDownload.RequestsTile | subsys/greybus/fw_download.c:35-56 | The k-th fetch asks for 64k mod 65536 and at least its block, and the blocks tile the image without gap or overlap |
| FirmwareDownload.RoundsOnCourse | subsys/greybus/fw_download.c:119-156 | After every round, whatever writes failed: offset, pending fetch, request id, flash and messages sent are those of that many blocks |
| FirmwareDownload.FlashFailuresShow | subsys/greybus/fw_download.c:140-146 | A download runs to its end in spite of failed writes; what is written or buffered is the expected image if and only if every write, failed or not, took its whole block, and too short otherwise; it is flushed if and only if the last write succeeded |
| FirmwareDownload.ValidatedIff | subsys/greybus/fw_download.c:140-153 | The host is told the image is validated if and only if the last write succeeded and the boot loader accepts, whatever earlier writes did |
| FirmwareDownload.HostIsTold | subsys/greybus/fw_download.c:92-156 | All reports of a download: one failure for each failed write, under the low byte of the image size, and after a last write that succeeded, under the request id, validated with major and minor if and only if the boot loader gives these, failed if and only if it does not |
| FirmwareDownload.HoleValidatedIff | subsys/greybus/fw_download.c:140-153 | The host is told that an image is validated which flash does not hold, if and only if some write left bytes out or the image differs from itself folded at 65536, the last write succeeded and the boot loader accepts |
| FirmwareDownload.HoleCanBeValidated | subsys/greybus/fw_download.c:140-153 | A 128-byte image whose first write failed with any part of its bytes missing is reported validated |
| FirmwareDownload.FailureReportedUnder | subsys/greybus/fw_download.c:144 | A failed write is reported under the request id if and only if the low byte of the image size happens to equal it |
| Hid.HidInfo.constructor | subsys/greybus/hid.c:576-601 | Allocation fills the free queue with the five nodes and the first becomes the callback node |
| Hid.Queue.NodeRequeue | subsys/greybus/hid.c:107-114 | Appends to the queue |
| Hid.Queue.NodeDequeue | subsys/greybus/hid.c:122-136 | Takes the head, or nothing from an empty queue |
| Hid.HidInfo.EventCallback | subsys/greybus/hid.c:419-458 | Keeps the invariant and moves the state as the callback function says, including both refusals |
| Hid.HidInfo.Step | subsys/greybus/hid.c:470-500 | Each thread step keeps the invariant and moves the state as the step function says |
| Hid.AlwaysInvariant | subsys/greybus/hid.c:419-500 | Under every interleaving the five nodes are partitioned among free queue, data queue, callback node and thread, and accepted reports are those sent followed by those queued, contents intact |
| Hid.SentInOrder | subsys/greybus/hid.c:419-500 | From power-on, what was sent is a prefix of what was accepted and the remainder is in the buffers in order |
| Hid.ReportAlone | subsys/greybus/hid.c:440 | The node the callback writes into is in no queue and not in the hand of the thread |
| Hid.StuckForEver | subsys/greybus/hid.c:428-434 | With no callback node and no request outstanding, no interleaving ever accepts another report |
| Hid.StuckIff | subsys/greybus/hid.c:492-496 | A step leads there if and only if the thread clears the request flag while the callback has no node |
| Hid.RequestCanBeLost | subsys/greybus/hid.c:492-496 | Such a run exists: the callback uses up the refill before the thread clears the flag |
| HidThread.CallbackAnswers | subsys/greybus/hid.c:419-458 | Without a node a report is refused before its length is looked at, and the thread woken; with a wrong length nothing changes; otherwise it is stored, queued and counted, and a request raised exactly when no node is left |
| HidThread.AlwaysPosted | subsys/greybus/hid.c:419-500 | Under every interleaving the thread never blocks on the semaphore while a report is queued |
| HidThread.TurnRuns | subsys/greybus/hid.c:470-500 | The steps of the thread from one wait to the next are one turn of the loop: the oldest report sent and its node freed, then a request answered with the oldest free node |
| HidThread.EveryReportSent | subsys/greybus/hid.c:419-500 | From every state an interleaving leads to, the thread left to run sends every accepted report, in order, and goes to sleep |
| HidThread.RequestAnswered | subsys/greybus/hid.c:492-496 | A raised request is answered with a node by the next turn of the loop |
| Camera.AlwaysInvariant | subsys/greybus/camera_data.c:20-170 | Under every interleaving of worker and control steps: who can be where in which stream state, that a running stream keeps a worker scheduled or at work, the counters of the running capture, and what has been sent since the stream was started, frame by frame |
| Camera.SendingStep | subsys/greybus/camera_data.c:58-89 | A fragment leaves only while a capture runs, with the current frame id, within the target, at most 1024 bytes |
| Camera.Quiescence | subsys/greybus/camera.c:276-354 | As the host sees it, under every interleaving from any state with an idle stream and the camera not capturing: nothing is sent unless a capture was answered with success, or `video_stream_start` refused one whose stream had been started, or one past that start still waits for its answer |
| Camera.NothingBeforeCapture | subsys/greybus/camera.c:276-380 | The same for every run from connecting: nothing at all has been sent unless one of these has happened |
| Camera.NothingAfterFlush | subsys/greybus/camera.c:325-354 | The same for every history since connecting that ends in a successful flush |
| Camera.SilentUntilStarted | subsys/greybus/camera_data.c:158-170 | On the data plane: while no worker is active or scheduled nothing is sent until the step that sets the stream to streaming, under every interleaving |
| Camera.FlushedIsQuiet | subsys/greybus/camera.c:325-354 | The reply of a successful flush is given exactly by the step that leaves the stream idle with no worker active or scheduled |
| Camera.QuietEndsAtStartSet | subsys/greybus/camera_data.c:151 | Only the step that sets the stream to streaming ends the quiet; the capture it belongs to is not answered yet |
| CameraRequests.AnsweredOnce | subsys/greybus/camera.c:276-316 | From its arrival on, a request gets exactly one answer, and with a capture answered with success the camera is capturing |
| CameraRequests.RefusedCaptureSendsNothing | subsys/greybus/camera.c:276-316 | A capture that is answered with an error, from any state between requests, has not started the stream, and with the stream idle before has left what was sent as it was, unless `video_stream_start` refused it; then the answer is an unknown error |
| CameraRequests.RefusedCaptureLeaksIff | subsys/greybus/camera.c:297-310 | From any state between requests, a run in which a capture is answered with an error after the stream it started has sent a fragment exists if and only if the camera is configured and not capturing, the size is right and the frame counter is not past the target |
| CameraRequests.LeakingRun | subsys/greybus/camera.c:303-308 | From every such state, that run: one fragment, an unknown-error answer, and the camera is configured and idle again |
| CameraRequests.FirstCaptureLeaks | subsys/greybus/camera.c:303-308 | From connecting: the first capture is refused with a fragment of it on the link |
| CameraRequests.AcceptedStartsIff | subsys/greybus/camera_data.c:126-128 | A capture answered with success has started the stream if and only if it did not meet a running one, and certainly when the stream was not running before |
| CameraRequests.CaptureIgnoredIff | subsys/greybus/camera_data.c:126-128 | A run in which a capture is answered with success without starting the stream exists if and only if the stream is running when it arrives |
| CameraRequests.IgnoredRun | subsys/greybus/camera.c:297-314 | In that run the request leaves nothing behind but its answer, its frame count included |
| Camera.FrameLimit | subsys/greybus/camera_data.c:45-56 | Within one capture with target T > 0 every fragment has frame id at most T, and at least 1 unless the 32-bit counter overflowed |
| Camera.CaptureDelivers | subsys/greybus/camera_data.c:124-130 | A capture that stops by itself has let through the frames frame_id + 1 to T counted from its start, and sent of each what the transport took, under these ids; T frames if and only if the counter was zero |
| Camera.SentSinceStart | subsys/greybus/camera_data.c:45-89 | At every moment the fragments sent since the stream was started are cut from the frames let through, in the order of the frame counter, until it wraps; the frame id is a tag of the log, not on the link |
| CameraRequests.SecondCaptureEndsShort | subsys/greybus/camera_data.c:124-130 | From connecting: two captures of one frame each are answered with success, and one fragment is all that is ever sent |
| CameraLiveness.FrameTurn | subsys/greybus/camera_data.c:20-102 | A wake-up with a frame within the target sends exactly its fragments under the next frame id and schedules the worker again |
| CameraLiveness.EmptyTurn | subsys/greybus/camera_data.c:32-38 | A wake-up without a buffer schedules the worker again and changes nothing else |
| CameraLiveness.FinalTurn | subsys/greybus/camera_data.c:45-56 | A wake-up with a frame over the target sends nothing and ends the stream |
| CameraLiveness.WakesInVain | subsys/greybus/camera_data.c:27-29 | A wake-up with the stream no longer running changes nothing |
| CameraLiveness.RunningStreamServed | subsys/greybus/camera_data.c:20-102 | From every state between requests the worker comes to rest, and if the stream then runs it is scheduled, so the next frame goes out whole, or ends the stream when over the target |
| CameraLiveness.EmptyDequeueRetries | subsys/greybus/camera_data.c:32-38 | After an empty dequeue the worker comes back and sends the frame that is there by then |
| CameraLiveness.StoppedWinds | subsys/greybus/camera_data.c:158-170 | Once the stream is not running, until it is started again, at most the frame past the check goes out and the worker is not scheduled anew, under every interleaving |
| CameraLiveness.CaptureAnswers | subsys/greybus/camera.c:276-316 | Under every interleaving up to its answer: invalid at once when not configured or malformed; otherwise success, and capturing, if and only if no buffer and no start of the video device failed; an error, and the state as before, if one did |
| CameraLiveness.FlushAnswers | subsys/greybus/camera.c:325-354 | Under every interleaving up to its answer: invalid at once when not capturing; otherwise success with the frame counter, configured and idle, if and only if neither call to the device failed, both having been made; an error, still capturing, if one did |
| CameraLiveness.FlushEnds | subsys/greybus/camera.c:325-354 | With a willing device a flush does come to that answer |
| CameraLiveness.ConfigureAnswers | subsys/greybus/camera.c:166-261 | A configuration is invalid while capturing, and otherwise takes effect exactly when the device accepts the format |
| Camera.DataCtx.FrameWorker | subsys/greybus/camera_data.c:20-102 | One uninterrupted run: nothing outside streaming, the counter and target check, and the frame cut into fragments up to the first one that slab or transport refuses |
| Camera.ChunksTile | subsys/greybus/camera_data.c:58-89 | The fragments of a frame concatenate to the frame, all of 1024 bytes but the last, and are as many as needed |
| Camera.FrameInProgress | subsys/greybus/camera_data.c:58-89 | Under every interleaving, refusals included, the log ends with the fragments of exactly the part of the current frame that the worker has passed |
| Camera.SendingUninterrupted | subsys/greybus/camera_data.c:58-89 | The interleaved worker, left alone, sends exactly those fragments |
| Apbridge.Bridge.NodeApAdd | subsys/greybus/apbridge.c:14-28 | Binds a free slot in range, and otherwise changes nothing and says why |
| Apbridge.Bridge.NodeApRemove | subsys/greybus/apbridge.c:30-40 | Clears the slot when it is in range |
| Apbridge.Bridge.NodeToApCport | subsys/greybus/apbridge.c:42-56 | Finds the least AP cport bound to the endpoint, or reports that there is none |
| Apbridge.Bridge.Deinit | subsys/greybus/apbridge.c:63-69 | Leaves every slot empty |
| Apbridge.Bridge.ConnectionCreate | subsys/greybus/apbridge.c:71-114 | Table, callbacks invoked and result of a create request, in the order the source tries things |
| Apbridge.Bridge.ConnectionDestroy | subsys/greybus/apbridge.c:116-145 | Clears the AP slot whatever it was bound to, telling the named node if it is there |
| Apbridge.Bridge.Send | subsys/greybus/apbridge.c:147-168 | Writes to the bound endpoint, or to the AP on the least bound cport, and returns what the write returns; fails when there is none |
| Apbridge.ForwardOfReverse | subsys/greybus/apbridge.c:42-56 | A successful reverse lookup leads forward to its endpoint; it fails exactly when nothing is bound to it |
| Apbridge.ReverseOfForward | subsys/greybus/apbridge.c:147-168 | The reverse of a forward route is at most the AP cport it came from, and equal to it exactly when no lower one shares the route |
| Apbridge.BindIsolated | subsys/greybus/apbridge.c:14-40 | Rebinding one slot changes no other forward route and no reverse route but those of the endpoints it leaves or joins |
| Apbridge.SlotsIndependent | subsys/greybus/apbridge.c:14-145 | Over every sequence of creates, destroys and deinits, a slot is what the operations on its own AP cport make it |
| Apbridge.RepliesReturn | subsys/greybus/apbridge.c:71-168 | If no create names an endpoint that is bound at that moment, then over every run a reply goes back to the AP cport the request came from |
| Apbridge.CreatedIff | subsys/greybus/apbridge.c:71-114 | A connection is created if and only if a side is the AP, the other interface is registered, its callback is absent or succeeds, and the AP slot is in range and free; then it is the route of that slot, otherwise the table is unchanged and the error says which of these failed first; the node is told exactly when it is registered with a callback |
| Apbridge.DestroyedIff | subsys/greybus/apbridge.c:116-145 | A destroy request succeeds if and only if a side is the AP; then exactly that AP slot has no route, and the node is told once, with its handle and its own cport, if and only if its interface is registered with a callback |
| Apbridge.ApToApAccepted | subsys/greybus/apbridge.c:79-87 | Two AP cports are connected under those conditions; only the first gets a route |
| Apbridge.CreateToldInVainIff | subsys/greybus/apbridge.c:98-111 | A node with a willing callback is told of a connection that then does not exist if and only if the AP slot is taken or out of range |
| Interfaces.Registry.NewInterfaceId | subsys/greybus/interfaces.c:10-31 | The least free id from 2 up, and no id exactly when all of those are taken or the lock is |
| Interfaces.Registry.Add | subsys/greybus/interfaces.c:33-52 | Fills a free slot, refuses a taken one or a taken lock; the table is that of the add operation |
| Interfaces.Registry.Remove | subsys/greybus/interfaces.c:54-61 | Empties the slot |
| Interfaces.Registry.Alloc | subsys/greybus/interfaces.c:63-99 | Fails exactly on a taken lock, no memory or no free id; otherwise returns an interface with the least free id cut to eight bits, and the table is that of the allocation |
| Interfaces.Registry.Dealloc | subsys/greybus/interfaces.c:101-105 | Empties the slot of the interface |
| Interfaces.AllocatedIsFound | subsys/greybus/interfaces.c:88-94 | An allocated interface is found under its id if and only if the least free id is below 256, or cut to eight bits it is the free slot 0 or 1; otherwise it is in no slot |
| Interfaces.AllocationLost | subsys/greybus/interfaces.c:63-99 | In any table of more than 256 slots, with SVC, AP and 254 allocations made, every further allocation leaves the table unchanged |
| Interfaces.AlwaysIndexed | subsys/greybus/interfaces.c:33-105 | Over every sequence of operations slot i is empty or holds the interface with id i |
| Interfaces.AllocationsFill | subsys/greybus/interfaces.c:63-99 | Allocations from an empty table hand out 2, 3, 4 and so on, up to the table size or 255 |
| Scatter.DealtCovers | include/greybus/greybus_protocols.h:671-680 | The slices of the writes are the outgoing data without gap or overlap, and the bytes gathered are as many as the reads announced |
| I2cTransfer.AskedIsDealt | subsys/greybus/i2c.c:86-108 | Transfers done as the flags ask deal the outgoing data out to the writes |
| I2cTransfer.ResponseSize | subsys/greybus/i2c.c:71-76 | The first pass computes the total size of the ops with bit 0 in their flags |
| I2cTransfer.ProtocolTransfer | subsys/greybus/i2c.c:55-116 | Every op up to the first one the bus refuses ran in order with its own address: a read of its size when bit 0 of its flags is set, otherwise a write of its own slice of the data from byte 2 + 6 * count on; if none is refused the response is the bytes read, in order; otherwise the one reply is the error of the bus |
| SpiTransfer.ResponseSize | subsys/greybus/spi.c:140-146 | The first pass computes the total length of the transfers with bit 0 in their flags |
| SpiTransfer.ProtocolTransfer | subsys/greybus/spi.c:98-217 | The same for transfers that read with bit 0 and write with bit 1 of their flags, from byte 4 + 13 * count on: exactly the transfers before the first refusal run, with their own speed and the configuration of the request; mode bits 4, 6 and 7, a chip-select change, no direction and the bus are refused with the reply of the source |
| SpiTransfer.ConfigBits | subsys/greybus/spi.c:123-138 | Which bit of the mode sets what in the configuration of the bus, and that a single transfer runs with the low six bits of its word size |
| SpiTransfer.OwnWordSizeIff | subsys/greybus/spi.c:153 | A transfer runs with its own word size if and only if no earlier one left a bit behind that it does not have |
| SpiTransfer.WordSizesMix | subsys/greybus/spi.c:153 | A 16-bit transfer after an 8-bit one runs with word size 24 |
| Manifest.SizeAgrees | subsys/greybus/platform/manifest.c:25-41 | The size macro equals the length of what is written |
| Manifest.SetDescriptor | subsys/greybus/platform/manifest.c:107-152 | Writes exactly the encoded descriptor at the cursor, touches nothing else, and returns its size |
| Manifest.ManifestCreate | subsys/greybus/platform/manifest.c:154-192 | Refuses a short buffer unchanged; otherwise the buffer is the manifest followed by zeros and the cursor ends at the manifest size |
| Manifest.ReadBack | subsys/greybus/platform/manifest.c:212-234 | A representable descriptor is read back from where it was written, with its size and a known type |
| Manifest.WalkMeets | subsys/greybus/platform/manifest.c:207-237 | A walk over written descriptors meets exactly them and stops exactly at their end |
| Manifest.ManifestRoundTrip | subsys/greybus/platform/manifest.c:154-238 | For strings under 256 bytes and a total under 65536, walking any buffer that begins with the manifest meets all descriptors and stops at the size in the header |
| Manifest.DescriptorsAt | subsys/greybus/platform/manifest.c:170-189 | Those are the interface, the two strings, the bundles in id order and the cports in id order |
| Manifest.ManifestLayout | subsys/greybus/platform/manifest.c:99-105 | A manifest, byte by byte: size, major and minor version, then the descriptors from offset 4; and its size in numbers |
| Manifest.FixedLayout | subsys/greybus/platform/manifest.c:107-152 | The eight bytes of interface, bundle and cport descriptors |
| Manifest.TextLayout | subsys/greybus/platform/manifest.c:118-128 | The bytes of a string descriptor: padded size, type 2, length in one byte, id, characters, zeros |
| Manifest.TextSurvivesIff | subsys/greybus/platform/manifest.c:118-128 | A string comes back whole if and only if it is shorter than 256 bytes, the length field being one byte |
| Manifest.ManifestPrint | subsys/greybus/platform/manifest.c:194-238 | Prints the version, and what the walk meets, and reports the invalid case exactly when the walk does |

## Left out

- UartTransport.ProcessFrameCb: asks that a whole header arrived and that it announces at least its own eight bytes;
  the source reads both unchecked, with undefined results otherwise.
- UartTransport.MessageHdlcSend: asks that the message fits the 512-byte local buffer, which the source does not
  check.
- TcpTransport.MessageReceive: asks that a header announces at least its own eight bytes, which the source does not
  check.
- TcpTransport.ReceiveUntilClosed: is about a socket without errors and a heap without refusals. After either the
  source goes on at the byte where it stopped, which is in step with the stream when nothing was consumed or the
  whole of a message without payload, and inside a message otherwise.
- FirmwareDownload.FlashFailuresShow: a failed write that damages what earlier writes left in flash is not modelled.
- FirmwareDownload.Downloader.FetchFirmwareResponse: asks that a successful response carries the bytes expected,
  which the source does not check.
- I2cTransfer.ProtocolTransfer: asks that the outgoing data of all writes is in the request, which the source does
  not check; descriptors are taken as parsed values, not as bytes.
- SpiTransfer.ProtocolTransfer: asks the same, and that the response could be allocated, which the source does not
  check either.
- Apbridge.Bridge.Send: asks that the AP cport is bound and that the AP interface is registered; the source follows
  both pointers unchecked.
- Manifest.ManifestPrint: asks that the walk stays in the buffer and meets no descriptor of size zero, on which the
  source does not end.
- Interfaces.Registry.Add: asks, like the other table operations, that ids are below the table size, which the
  source does not check.
- UartTransport.GreybusOverHdlc: the pad bytes of a header are transported but not compared, since a received
  message keeps heap contents there.
- The assertion on the control byte of a received frame is passed through; every frame the sender makes carries
  0x03.
- The receive ring between the UART interrupt and the HDLC work item: to the receiver it only chunks the line. One
  run of the work item takes the contiguous part of the ring, so after a wrap the rest waits for the next interrupt.
- Heap lifetime: messages and interfaces are values, connections are destroyed before their interface goes away, and
  a response read after it was freed reads what it held.
- Big-endian hosts.
- HID liveness beyond the lost request, HID initialisation failures and the synchronous HID operations.
- The Zephyr work queue, mutex and semaphore are taken at their documentation: one work item runs at a time,
  scheduling is refused while a cancellation waits, and the cancellation waits for a running worker.
- Reconnecting the camera while its worker runs, and the format negotiation inside stream configuration.
- The wrap of the operation id counter.
- Socket setup, accept and poll, TLS, logging, certificates, Kconfig and devicetree.
- GPIO, PWM, lights, vibrator, log, loopback, raw, audio, USB, power supply, SDIO, SVC and control handlers: mostly
  one branch to a driver.
