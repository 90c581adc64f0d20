# bootypic serial protocol, in Dafny

This project models the serial protocol core of the bootypic bootloader for
PIC24/dsPIC33 parts (`bootloader.c`, `bootloader.h`). It also proves
properties of that model. The core has four parts:

- **The checksum.** `fletcher16Accum` and `fletcher16` keep two byte sums,
  each reduced with `& 0xff`. The arithmetic is modulo 256, not the textbook
  modulo 255.
- **The frame transmitter.** `txStart`, `txByte`, `txEnd` and `txBytes`, plus
  the wrappers `txArray16bit`, `txArray32bit` and `txString`.
  - A frame is `START_OF_FRAME`, then the escaped logical bytes, then the
    escaped checksum (low byte first), then `END_OF_FRAME`.
  - The logical bytes are the little-endian payload length, the command and
    the payload.
  - The transmitter is a state-passing function over the bytes sent so far
    and the running sums.
  - Its reference is `Frame.Encode`.
- **The receive parser.** `receiveBytes` is a four-state machine over a
  buffer of `RX_BUF_LEN` bytes. It keeps its static index, state and buffer
  in a `Receiver`.
  - `Parser.Step` is one iteration of its loop.
  - `Parser.Feed` folds `Step` over the bytes the host sends.
  - `Parser.ReceiveBytes` is one call of the firmware function, which
    returns after a frame end, a full buffer, or an empty UART.
- **The command dispatcher.** `processCommand`, with `is_addr_in_boot` and
  `from_lendian_uint32`. It is a function from the received buffer to the
  list of calls it makes:
  - `Erase`, `DoubleWordWrite`, `WriteRow` and `StartApp` stand for the
    flash drivers and the jump.
  - `Reply` stands for the transmit call that answers a query.
  - Flash reads (`readAddress`) are a function parameter.

`Session.Bootloader` puts the pieces together. It feeds the input to the
receiver, runs `processCommand` on every frame that passes its checksum, and
stops after `CMD_START_APP`.

The build and linker values form one `Config` record: `MAX_PROG_SIZE`,
`_FLASH_ROW`, `_FLASH_PAGE`, `__PROGRAM_LENGTH`, `__IVT_BASE`, `_BOOT_BASE`,
`_BOOT_END`, `APPLICATION_START_ADDRESS` and `PLATFORM_STRING`.
`Config.ValidConfig` states the configurations the model covers. Only the
first condition is checked by the build:
- `MAX_PROG_SIZE` is a positive multiple of `_FLASH_ROW` (the `#error`
  guard at bootloader.c:5-7; positivity is an assumption of the model).
- `RX_BUF_LEN` fits the 16-bit receive index. This is an assumption of the
  model. Nothing in the source enforces it; with a larger buffer the
  `uint16_t` clearing loop at bootloader.c:101 would never end.
- The platform string has fewer than 20 characters and no NUL byte. This is
  also an assumption of the model. `char strPlatform[20]` at
  bootloader.c:129 accepts a 20-character literal, which leaves the array
  without a terminator.

The model keeps several behaviours of the code as written, and states each
as a lemma:

- **Protection checks look only at the start address.**
  `CMD_ERASE_PAGE`, `CMD_WRITE_ROW` and `CMD_WRITE_MAX_PROG_SIZE` test only
  their start address against the boot region. A bulk write that starts
  just below `_BOOT_BASE` still writes rows inside it
  (`DispatchFacts.BulkWriteReachesBoot` gives a concrete configuration).
  What the model proves is the weaker rule the code keeps
  (`DispatchFacts.MutationsOutsideBoot`).
- **Values are truncated to 16 bits.** `CMD_READ_BOOT_START_ADDR` replies
  with `_BOOT_BASE` truncated to 16 bits
  (`DispatchFacts.BootStartTruncated`). The other 16-bit answers, and the
  `uint16_t` argument of `startApp`, are truncated in the same way.
- **Argument lengths are never checked.** `processCommand` reads its
  arguments from the whole buffer without checking how many bytes the frame
  carried. Missing arguments read the frame's own checksum bytes and then the
  zeros the buffer was cleared to. An empty `CMD_ERASE_PAGE` frame therefore
  erases address 0x1010 (`Session.EmptyEraseUsesChecksum`).

## Model

Each C function of the core is a Dafny function or method. Most carry no
contract of their own; the rows below state their behaviour in lemmas:
- `is_addr_in_boot` (bootloader.c:15-19) is `Config.IsAddrInBoot`; see
  `DispatchFacts.BootProtected` and `DispatchFacts.MutationsOutsideBoot`.
- `processCommand` (bootloader.c:118-262) is `Dispatch.ProcessCommand`,
  which selects the command, and `Dispatch.Run`, which runs it; see the
  `DispatchFacts` and `Replies` rows.
- `from_lendian_uint32` (bootloader.c:110-116) is `Bytes.FromLendianUint32`;
  see `Bytes.FromLendianOfLE32`, `Bytes.LE32OfFromLendian` and
  `DispatchFacts.WordsReadBack`.
- `fletcher16Accum` (bootloader.c:345-349) is `Fletcher.Fletcher16Accum`;
  see `Fletcher.RunningChecksum`.
- `txStart`, `txByte`, `txEnd` and `txBytes` (bootloader.c:264-311) are
  `Transmit.TxStart`, `Transmit.TxByte`, `Transmit.TxEnd` and
  `Transmit.TxBytes`; see `Transmit.TxByteEmits`,
  `Transmit.TxEndAppendsChecksum` and `Transmit.TxBytesEncodes`.
- `txArray16bit`, `txArray32bit` and `txString` (bootloader.c:313-343) are
  `TxWrappers.TxArray16`, `TxWrappers.TxArray32` and `TxWrappers.TxString`;
  see the three `TxWrappers.*Encodes` rows.
- `receiveBytes` (bootloader.c:50-107) is `Parser.Step` for one byte and
  `Parser.ReceiveBytes` for one call; `fletcher16` (bootloader.c:351-364)
  is the method `Fletcher.Fletcher16`.

| member | source | states |
|---|---|---|
| Bytes.XorBit5Spec | bootloader.c:82 | `b ^ ESC_XOR` changes the byte, keeps every bit but bit 5, and applied twice gives the byte back |
| Bytes.FromLendianOfLE32 | bootloader.c:110-116 | reading four little-endian bytes of a word with `from_lendian_uint32` gives the word back |
| Bytes.LE32OfFromLendian | bootloader.c:110-116 | the word `from_lendian_uint32` reads, laid out little-endian, is exactly the four bytes it was read from |
| Bytes.LE16Injective | bootloader.c:90-91 | the received checksum `message[i-2] + (message[i-1] << 8)` recombines the two bytes of a 16-bit value, and different values have different byte pairs |
| Config.BufferFitsLargestFrame | bootloader.h:10 | `RX_BUF_LEN` exceeds every buffer offset the dispatcher reads and the largest frame (header, address, `MAX_PROG_SIZE` words, checksum), and a row is no longer than a bulk write |
| Protocol.MarkersDistinct | bootloader.h:15-31 | the three markers are pairwise distinct and xoring any of them with `ESC_XOR` gives a non-marker |
| Protocol.XorInvolution | bootloader.h:22-31 | xoring with `ESC_XOR` is its own inverse, so the receiver's xor undoes the transmitter's |
| Protocol.EscapeSpec | bootloader.c:271-284 | a byte goes out as itself exactly when it is not a marker, and otherwise as `ESC` and a non-marker that xors back to it; neither form holds a frame marker |
| Protocol.StuffSpec | bootloader.c:306-308 | escaping a run of bytes at most doubles it and never produces a start or end marker |
| Protocol.CommandOf | bootloader.h:36-60 | the command a byte selects has that byte as its code |
| Protocol.CodesSelectUniquely | bootloader.h:36-60 | each command's code selects that command, and no other byte does |
| Protocol.UnknownCodes | bootloader.c:259-260 | a byte selects no case exactly when it is the code of no command |
| Fletcher.ValueBytes | bootloader.c:286-292 | the checksum `(sum2 << 8) + sum1` goes out as `sum1` then `sum2` |
| Fletcher.RunningChecksum | bootloader.c:345-349 | after each byte, `fletcher16Accum` returns the checksum of all bytes accumulated since the reset |
| Fletcher.AccumAllAppend | bootloader.c:345-349 | accumulating a concatenation is accumulating its parts in turn |
| Fletcher.Fletcher16 | bootloader.c:351-364 | the loop of `fletcher16` computes the same checksum as the running accumulator from zeroed sums, and its bytes are the byte sum and the weighted byte sum modulo 256 |
| Fletcher.ClosedForm | bootloader.c:345-364 | from zeroed sums, `sum1` is the byte sum and `sum2` the sum of each byte weighted by its distance from the end, both modulo 256 |
| Frame.EncodeFraming | bootloader.c:264-296 | a frame starts with the start marker and ends with the end marker, and neither marker occurs in between |
| Transmit.TxByteEmits | bootloader.c:271-284 | `txByte` appends either the byte or `ESC` and the byte xored with `ESC_XOR` (the latter exactly for markers), never a frame marker, and accumulates the unescaped byte |
| Transmit.TxEndAppendsChecksum | bootloader.c:286-296 | `txEnd` appends the escaped checksum of the running sums, low byte first, and then the end marker |
| Transmit.TxEachSpec | bootloader.c:306-308 | sending bytes one by one appends their escaped forms and accumulates exactly those bytes |
| Transmit.TxBodySpec | bootloader.c:301-308 | after the start marker, `txBytes` sends the escaped length, command and first `len` bytes, and its sums are their checksum |
| Transmit.TxBytesEncodes | bootloader.c:298-311 | `txBytes(cmd, bytes, len)` appends exactly the reference frame of the first `len` bytes |
| TxWrappers.TxArray16Encodes | bootloader.c:313-316 | `txArray16bit` sends the frame of its words serialised little-endian |
| TxWrappers.TxArray32Encodes | bootloader.c:318-321 | `txArray32bit` sends the frame of its words serialised little-endian |
| TxWrappers.CStrLen | bootloader.c:327 | the length loop of `txString` stops at the first NUL |
| TxWrappers.TxStringEncodes | bootloader.c:323-343 | `txString` sends the frame of the string together with its NUL terminator, which is what `txBytes` sends for `strlen + 1` bytes |
| Parser.Step | bootloader.c:65-105 | one byte keeps the receiver invariant (index inside the buffer, zeros after the index), every frame end or full buffer resets the receiver, and a dispatched frame is the whole buffer |
| Parser.StepSpec | bootloader.c:65-105 | outside a frame only a start marker counts; a frame is dispatched exactly when the end marker arrives with two or more bytes stored and the last two match the checksum of the rest; the buffer overflows exactly when a data byte fills its last slot; otherwise a data byte is appended and nothing else changes |
| Parser.ShortFrameReadsOutsideBuffer | bootloader.c:89-92 | as written, an end marker with fewer than two stored bytes makes the firmware read the checksum at offset 0xFFFE or 0xFFFF, outside the buffer |
| Parser.ShortFrameDropped | bootloader.c:89-105 | in the model such a frame is dropped and the receiver reset, as for a bad checksum |
| Parser.Feed | bootloader.c:58-106 | over any input, the receiver invariant holds, there is at most one event per byte, and every dispatched frame is a whole buffer |
| Parser.FeedAppend | bootloader.c:50-52 | the receiver state persists between bytes, so receiving two pieces of input in turn is receiving their concatenation |
| Parser.ReceiveBytes | bootloader.c:50-107 | one call consumes a prefix of the pending bytes, returns only after an event or once no bytes remain, and leaves the receiver reset after an event |
| Parser.NoByteLost | bootloader.c:58-64 | calling `receiveBytes` until no bytes remain processes exactly what the byte-by-byte fold processes |
| Reception.FeedEscaped | bootloader.c:72-84 | inside a frame, the escaped form of any byte appends exactly that byte to the buffer and leaves the receiver reading verbatim |
| Reception.FeedStuffed | bootloader.c:72-84 | inside a frame, the escaped form of a run of bytes appends exactly that run |
| Reception.FeedEnd | bootloader.c:89-105 | at the end marker the buffer is dispatched exactly when its last two bytes, low first, equal the checksum of the bytes before them; otherwise it is dropped, and either way the receiver is reset |
| Reception.RoundTrip | bootloader.c:89-93 | every frame the transmitter builds that fits the buffer is dispatched exactly once, as its length, command, payload and checksum followed by zeros |
| Reception.CorruptChecksumRejected | bootloader.c:89-105 | a frame whose checksum field is wrong is not dispatched, and the receiver is reset |
| Reception.NoiseIgnored | bootloader.c:66-71 | while waiting for a start marker, every other byte is discarded and the receiver stays in its initial state |
| Reception.NoiseThenFrame | bootloader.c:66-71 | noise before a frame does not change how the frame is received |
| Reception.TwoFrames | bootloader.c:99-105 | after a frame the receiver is back in its initial state, so frames sent back to back are received independently |
| Reception.EmptyFrame | bootloader.c:89-92 | the input `F7 7F` reaches the end of a frame with nothing stored, and the firmware's checksum offset wraps to 0xFFFE |
| DispatchFacts.WordsReadBack | bootloader.c:110-116 | the word arguments of a frame are read back exactly as the host serialized them little-endian after the seven header bytes: `from_lendian_uint32` inverts the encoding |
| Dispatch.RowStartProduct | bootloader.c:250-251 | the start of row `i` in `progData` is `i * _FLASH_ROW` |
| Dispatch.WholeRowsFit | bootloader.c:5-7 | since `MAX_PROG_SIZE` is a multiple of `_FLASH_ROW`, every row that starts inside `progData`'s `MAX_PROG_SIZE` words ends inside them |
| DispatchFacts.GotoBootloaderBits | bootloader.c:183 | `_BOOT_BASE` or-ed with `0x040000` has bit 18 set and every other bit of `_BOOT_BASE` unchanged |
| DispatchFacts.MutationsOutsideBoot | bootloader.c:170-253 | flash changes only on `CMD_ERASE_PAGE`, `CMD_WRITE_ROW` and `CMD_WRITE_MAX_PROG_SIZE`, and only when their start address is outside `[_BOOT_BASE, _BOOT_END)` |
| DispatchFacts.BootProtected | bootloader.c:170-253 | a start address inside the boot region changes no flash |
| DispatchFacts.RepliesOnlyToQueries | bootloader.c:131-262 | a command sends a reply exactly when it is one of the read commands, and then sends exactly one, under the received command byte |
| DispatchFacts.UnknownIgnored | bootloader.c:259-260 | a command byte matching no case has no effect |
| DispatchFacts.EraseHealsResetVector | bootloader.c:170-190 | an erase outside the boot region erases the page and nothing else, except exactly at address 0, where it then rewrites the jump to the bootloader; inside the boot region it does nothing |
| DispatchFacts.RowWriteProtectsResetVector | bootloader.c:213-229 | `CMD_WRITE_ROW` writes exactly when its address is outside the boot region and at or above `__IVT_BASE`, and then writes one row of `_FLASH_ROW` words taken from the frame |
| DispatchFacts.RowWritesAreWrites | bootloader.c:250-252 | the bulk write loop only writes rows |
| DispatchFacts.RowSchedule | bootloader.c:250-252 | the bulk write makes `MAX_PROG_SIZE / _FLASH_ROW` calls; call `k` writes words `k*_FLASH_ROW` onward at `address + 2*k*_FLASH_ROW`; together they write the first `MAX_PROG_SIZE` words of `progData` once each, in order |
| DispatchFacts.BulkWriteSchedule | bootloader.c:231-253 | a bulk write at a nonzero address outside the boot region programs the frame's `MAX_PROG_SIZE` words unchanged, row `k` at `address + 2*k*_FLASH_ROW`, and no other effect |
| DispatchFacts.BulkWriteHealsResetVector | bootloader.c:231-253 | a bulk write at address 0 programs the jump to the bootloader and a zero word in place of the first two words and the frame's words everywhere else; row `k` is written at `2*k*_FLASH_ROW` from `progData`, and only the first row is at address 0 |
| DispatchFacts.BulkWriteReachesBoot | bootloader.c:231-253 | a bulk write whose start address is just below the boot region writes a row inside it |
| DispatchFacts.ReadMaxReply | bootloader.c:200-211 | `CMD_READ_MAX` answers with the address and the `MAX_PROG_SIZE` words read from it, two address units apart |
| DispatchFacts.BootStartTruncated | bootloader.c:165-168 | `CMD_READ_BOOT_START_ADDR` answers `_BOOT_BASE` modulo 2^16, which differs from it exactly when the base is 0x10000 or above |
| Replies.WireEncodes | bootloader.c:313-343 | every reply goes out as the frame of its command and payload |
| Replies.CBufferString | bootloader.c:128-129 | the string in a `char` array initialised from a shorter literal (`Dispatch.CBuffer`) ends where the padding starts, so `txString`'s count (bootloader.c:327-328) is the literal's length and the string goes out with one NUL |
| Replies.RepliesSendable | bootloader.c:131-211 | every reply fits the 16-bit byte count, and the strings are terminated inside their arrays |
| Replies.QueryAnswered | bootloader.c:131-211 | every read command is answered by exactly one reply that goes out whole |
| Replies.StringPayloads | bootloader.c:132-138 | the platform and version commands send their strings and a terminating NUL |
| Replies.ValuePayloads | bootloader.c:140-168 | the value commands send one little-endian word each: 16 bits, truncated, for all but `__PROGRAM_LENGTH`, which gets 32 |
| Replies.FlashReadPayloads | bootloader.c:192-211 | `CMD_READ_ADDR` sends the address and the word read there; `CMD_READ_MAX` sends `4*(MAX_PROG_SIZE+1)` bytes starting with the address |
| Session.React | bootloader.c:92-93 | only a frame that passed its checksum reaches `processCommand`, and a command that starts the application does nothing else |
| Session.StartAppAlone | bootloader.c:255-257 | the application is started exactly by `CMD_START_APP`, and that is its only effect |
| Session.Handle | bootloader.c:33-36 | over any run of received frames, starting the application can only be the last effect |
| Session.HandleAppend | bootloader.c:33-36 | processing two runs of frames in turn is processing their concatenation, up to the start of the application |
| Session.InputAfterStartIgnored | bootloader.c:255-257 | once the application is started, later input has no effect |
| Session.NoiseHasNoEffect | bootloader.c:66-71 | bytes before a start marker have no effect on what the bootloader does |
| Session.FrameDispatched | bootloader.c:89-93 | a well-formed frame that fits the buffer has the effects of `processCommand` on its received buffer |
| Session.QueryRoundTrip | bootloader.c:131-211 | a read command sent as one frame is answered with exactly one frame carrying the same command byte |
| Session.RowLengthQuery | bootloader.c:140-143 | `CMD_READ_ROW_LEN` over the wire is answered with `_FLASH_ROW` as a little-endian 16-bit word |
| Session.CorruptFrameHasNoEffect | bootloader.c:89-97 | a frame with a wrong checksum does nothing |
| Session.EmptyEraseUsesChecksum | bootloader.c:170-178 | an empty `CMD_ERASE_PAGE` frame takes its address from its own checksum bytes and the zeroed buffer, so it erases 0x1010 unless that address is in the boot region |

## Left out

- `main`, `pre_boot` and the `init*` functions are left out. They are hardware set-up.
- `should_abort_boot`, `ClrWdt` and the stall-timer resets (`TMR3HLD`, `TMR2`) are left out. They are the timeout policy; the model's session ends only at `CMD_START_APP` or at the end of the input.
- UART register polling (`U1STAbits.UTXBF`, `U1TXREG`) and `tryRxByte` are not modelled as hardware. Input is a byte sequence and output is the bytes the transmitter appends.
- `eraseByAddress`, `doubleWordWrite` and `writeRow` are foreign flash drivers. They appear only as effect records.
- `readAddress` is a function parameter, so flash contents are not tracked across writes.
- The internals of `startApp` are left out. It is a control transfer, modelled as the last effect.
- `processReceived` and `txArray8bit` are declared in bootloader.h but not defined in bootloader.c, and are not part of this model.
- config.h, boot_user.h and the linker script are not part of this model. Their values are fields of `Config`.
- In-memory byte order of `uint16_t` and `uint32_t` arrays is target-dependent. The model assumes the little-endian layout of the target.
- The width of the compiler's `int` is not modelled for offset products such as `i * _FLASH_ROW * 2` and `7 + i * 4`. They stay below `RX_BUF_LEN` and so cannot wrap. The other fixed-width operations on lengths, offsets and addresses are written with explicit wrap-around, except the `uint16_t` string count of `txString` (see the `TxWrappers.TxString` line below): 16-bit truncation (`Bytes.Trunc16`) for `messageIndex - 2` (`Parser.ChecksumOffsetAsWritten`), `len << 1` and `len << 2`, the `uint16_t word` answers and the argument of `startApp`, and 32-bit truncation (`Bytes.Trunc32`) for address arithmetic.
- A `PLATFORM_STRING` of 20 or more characters is excluded by `Config.ValidConfig`. With exactly 20 the array has no terminator and `txString` would read past it; the model does not describe that read.
- A receive buffer longer than 0xFFFF bytes is excluded by `Config.ValidConfig`; the source would hang in its clearing loop.
- TxWrappers.TxString: strings of 0xFFFF or more characters are excluded (`CStrLen(str) + 1 < 0x1_0000`), as they are by `TxWrappers.TxStringEncodes` and `Replies.Sendable`. The `uint16_t length` count of `txString` would wrap for them; the dispatcher only sends strings shorter than 20 characters.
- TxWrappers.TxArray16Encodes: stated only for arrays under 0x8000 words. For longer arrays `len << 1` wraps in 16 bits; the dispatcher never sends one.
- TxWrappers.TxArray32Encodes: stated only for arrays under 0x4000 words, for the same reason.
- Reception.RoundTrip: stated only for frames whose logical bytes fit the buffer. Longer frames end in `Overflow` (see `Parser.StepSpec`) and are never dispatched.
- Session.QueryRoundTrip: stated for frames that fit the buffer, for the same reason.

## Findings

| source | as written | input that shows it | evidently intended | confidence | as-written member | corrected member |
|---|---|---|---|---|---|---|
| bootloader.c:89-92 | at an end marker the received checksum is read at `messageIndex - 2` and `messageIndex - 1`, and `fletcher16` is asked for `messageIndex - 2` bytes, with no check that two bytes were stored; with 0 or 1 bytes the 16-bit subtraction wraps to 0xFFFE or 0xFFFF, outside the buffer | the two bytes `F7 7F` | a frame too short to carry a checksum is dropped and the receiver reset | not executed | Parser.ShortFrameReadsOutsideBuffer | Parser.ShortFrameDropped |
