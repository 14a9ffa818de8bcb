# shload: a Dafny model of the SuperH board loader

`shload` drives a Hitachi SuperH evaluation board over a serial line. It
talks to the board's boot monitor in two ways:

- **The checksummed packet protocol.** `send` writes `$<command>#<checksum>`
  one byte at a time, retrying each refused write. A single attempt counter
  is shared by the whole packet. `receive` reads a reply up to its `#`,
  drops the two checksum characters, and acknowledges a reply that held the
  `#`. Built on these are:
  - `load`, which sends every S-record of a file as an `M` memory-write
    packet at consecutive addresses;
  - `run` (`c`), `regdump` (`g`), `memdump` (`m`), `reset` (`r`),
    `query_offsets` (`qOffsets`) and the ROM-version query (`qID`).
- **The CMON handshake (`hint`).** The loader greets the monitor and waits
  for ENQ. It answers `*`, then waits for the bytes `L`, `O`, `x`. It then
  streams the image one byte per echo. A `>` in place of an echo makes it
  start the program with ACK, `g` and newlines, and hand the line to the
  user.

The model has one module per concern:

| module | file | what it holds |
|---|---|---|
| `Opt` | option.dfy | the `Option` type |
| `Strings` | strings.dfy | first-occurrence search |
| `Hex` | hex.dfy | `hextoint`, `asciihextobyte`, `cksum`, and `%x` as `HexString` with its inverse |
| `Transport` | transport.dfy | the serial line as a script (`Line`) and as an object (`Port`) |
| `Framing` | framing.dfy | `send` and `receive` as functions, and the `Board` class that runs them in place on the reply buffer |
| `Commands` | commands.dfy | the command texts, and a parser that reads them back |
| `Session` | session.dfy | one exchange: `send`, then `receive` when a reply is expected |
| `SRecord` | srecord.dfy | the record type, range test and payload extraction of `load` |
| `Loader` | loader.dfy | `load`: its specification, its lemmas, and the imperative loops |
| `Handshake` | handshake.dfy | `hint`: a step function, its lemmas, and the imperative driver |

The serial line is a scripted oracle:

- It holds the outcome of each coming write attempt, the result of each
  coming read, and the bytes taken so far.
- Past the end of the write script every write is taken.
- Past the end of the read script the line stays silent for good.
- Where the C program would then poll forever, the model stops and reports
  it: `Hung` in `receive`, `Stalled` in `load`, or a `hint` state short of
  `HandedOff`.

## Model

| member | source | states |
|---|---|---|
| Hex.HexToInt | shload.c:70-83 | a digit's value is below 16; a character that is not a hex digit is worth 0 |
| Hex.DigitValue | shload.c:73-77 | the lowercase digit table and `hextoint` are inverse on 0..15 |
| Hex.DigitOfValue | shload.c:73-77 | a lowercase hex digit is the table entry of its own value |
| Hex.HexToIntIgnoresCase | shload.c:76-80 | an uppercase digit has the value of its lowercase form, and that value is above 9 |
| Hex.Rehex | shload.c:436 | `%x` of `hextoint(c)` is a lowercase digit of the same value: it keeps lowercase digits, lowers uppercase ones, and maps every other character to `0` |
| Hex.RehexIdempotent | shload.c:436 | re-rendering a re-rendered character changes nothing |
| Hex.AsciiHexToByte | shload.c:85-89 | the result is a byte whose high nibble is the first digit's value and whose low nibble is the second's |
| Hex.Sum | shload.c:137-141 | the value `cksum` accumulates: the sum of the command's character codes, up to its end |
| Hex.Cksum | shload.c:131-149 | the checksum is two lowercase hex digits |
| Hex.CksumValue | shload.c:138-146 | the two digits are the low byte of the sum of the command's characters, high nibble first, and `asciihextobyte` reads that byte back from them |
| Hex.CksumExamples | shload.c:138-146 | `qID` has checksum `fe` and `+` has checksum `2b` |
| Hex.HexString | shload.c:482 | `%lx` gives at least one lowercase digit, no leading zero, `0` for zero, and digits whose value is the number |
| Hex.HexStringRoundTrip | shload.c:482 | the `%x` digits parse back to the number |
| Hex.HexStringCanonical | shload.c:525 | a non-empty lowercase digit string without a leading zero is exactly the `%x` rendering of its value |
| Transport.Port.Write | shload.c:168 | one write attempt of one byte, as the line script decides |
| Transport.Port.Read | shload.c:232 | one poll of the line: a byte, or nothing |
| Transport.AsReads | shload.c:232 | a string delivered byte by byte is read as exactly that string, with no empty polls |
| Transport.DataAppend | shload.c:229-253 | the bytes and empty polls of two runs of reads add up |
| Framing.Frame | shload.c:160-217 | the packet `send` puts on the line: `$`, the command, `#`, and the two checksum digits |
| Framing.Offer | shload.c:166-171 | one byte written again and again until the line takes it; gives the line afterwards and the attempts made |
| Framing.Put | shload.c:176-187 | one of `send`'s loops: the bytes go out one by one, each retried until taken, while the shared counter is below 65535 |
| Framing.OfferFacts | shload.c:166-171 | a byte is retried until the line takes it once; every attempt, refused or taken, counts once |
| Framing.PutFacts | shload.c:176-187 | one of `send`'s loops: the line takes a prefix of the string; the counter grows by one per attempt; a byte is left out only once the counter is at the ceiling, and none is started after that |
| Framing.PutOutput | shload.c:176-187 | the line takes a prefix of the string, and nothing once the counter is at the ceiling |
| Framing.PutCount | shload.c:176-187 | the counter grows by exactly the attempts made, and the string is cut short only at the ceiling |
| Framing.PutAppend | shload.c:160-217 | the four loops under one counter are one loop over the concatenated frame |
| Framing.SendSpec | shload.c:151-220 | `send` leaves the input alone; the line takes a prefix of `$cmd#ck`; on OK it takes the whole frame |
| Framing.SendCounter | shload.c:163-219 | OK exactly when the counter, one per attempt over the whole packet, stayed below 65535 |
| Framing.SendWithoutRejections | shload.c:160-219 | on a line that refuses no write, a short command goes out whole and `send` reports OK |
| Framing.Board.PutString | shload.c:176-187 | the imperative retry loop does what `Put` specifies |
| Framing.Board.Send | shload.c:151-220 | the method writes `$`, the command, `#` and the checksum as `SendSpec` specifies |
| Framing.AckFrame | shload.c:255-259 | the acknowledgement `send("+")` puts `$+#2b` on the line |
| Framing.Fill | shload.c:229-243 | the reply loop: a byte read is stored and an empty poll is counted, until a `#` is stored, the polls reach 65535, or 1024 bytes are stored |
| Framing.SkipChecksum | shload.c:246-253 | the checksum loop: two bytes are read and dropped; no result when the line falls silent first, where C polls forever |
| Framing.FillFacts | shload.c:229-244 | the reply loop stores exactly the bytes read, in order, and at most 1024 of them; it counts exactly the empty polls; it stops at the first `#`, at the ceiling or with the buffer full; the ceiling is reached only with no `#` and room left |
| Framing.FillConsumes | shload.c:229-243 | the reply loop stores exactly the bytes it reads and counts exactly the empty polls |
| Framing.FillEnds | shload.c:230 | the reply loop stops only at the first `#`, the ceiling, or a full buffer |
| Framing.SkipChecksumFacts | shload.c:246-253 | the checksum loop consumes exactly two bytes, and falls silent only when fewer remain |
| Framing.SkipTwo | shload.c:246-253 | two checksum bytes that arrive back to back are dropped |
| Framing.CString | shload.c:255 | `strstr` sees the reply up to its first NUL |
| Framing.CStringOfBuffer | shload.c:244 | the buffer holding the reply and then a NUL reads as the reply's C string |
| Framing.HashVisible | shload.c:255 | `strstr` finds `#` exactly when the reply ends with `#` and holds no NUL |
| Framing.ReceiveSpec | shload.c:223-262 | `receive`: the reply loop, the checksum loop, `send("+")` when `strstr` finds `#` in the stored reply, and ERROR exactly when the polls reached the ceiling; `Hung` where C waits forever for a checksum byte |
| Framing.ReceiveFacts | shload.c:223-262 | the stored reply is a prefix of the delivered bytes, at most 1024 of them, with `#` at most at its end; nothing is written when the line falls silent in the checksum loop; OK exactly when the `#` arrived or the buffer filled, ERROR when the polls ran out first |
| Framing.ReceiveAcks | shload.c:246-259 | exactly two checksum bytes are consumed; then `$+#2b` is sent when the reply ends with `#` and holds no NUL, and nothing otherwise |
| Framing.FillBytes | shload.c:230-243 | bytes without a terminator are stored one by one while there is room |
| Framing.ReceiveFrame | shload.c:223-262 | a reply shaped as a packet is stored through its `#`, its checksum is consumed, it is acknowledged, and `receive` reports OK |
| Framing.FillFrame | shload.c:229-244 | the reply loop stores a packet up to and including its `#` and leaves the checksum on the line |
| Framing.HashStep | shload.c:230-243 | a `#` read with room left and polls below the ceiling is stored and ends the loop, with the poll count unchanged |
| Framing.TerminatorPastEndAsWritten | shload.c:227-244 | with no `#`, 1024 bytes are stored, so the closing NUL goes one past `status[1024]` |
| Framing.Board.ReadReply | shload.c:229-244 | the in-place loop fills `status` as `Fill` specifies, closes it with a NUL, and changes nothing else |
| Framing.Board.DropChecksum | shload.c:246-253 | the method drops two bytes as `SkipChecksum` specifies, and reports where C would wait forever |
| Framing.Board.Receive | shload.c:223-262 | the method stores the reply in place with a NUL after it, leaves the rest of the buffer alone, and reports as `ReceiveSpec` specifies |
| Commands.RenderPlain | shload.c:444-447 | every command text is non-empty and holds no NUL, `#` or `$` beyond what the payload brings |
| Commands.Render | shload.c:300-572 | the text of each command: `M%lx,%x:%s` (444), `c%lx` (482), `g` (495), `m%lx,%x` (525), `r` (550), `qOffsets` (572) and `qID` (300) |
| Commands.Parse | shload.c:444 | reads a command back from its text, field by field; it has no counterpart in C and serves to show that the formats are unambiguous |
| Commands.MemDump | shload.c:525 | `memdump` asks for `m<start>,400`: a full reply buffer of 1024 bytes |
| Commands.NumberCanonical | shload.c:444 | a number field is accepted exactly when it is canonical `%x` output |
| Commands.ParseRender | shload.c:444 | every command is read back from its text |
| Commands.RenderParse | shload.c:444 | only a command's own text is read as that command |
| Commands.RenderInjective | shload.c:444 | distinct commands have distinct texts |
| Commands.MemWriteBack | shload.c:444 | the `M%lx,%x:%s` fields are read back as address, length and payload |
| Commands.MemReadBack | shload.c:525 | the `m%lx,%x` fields are read back as address and length |
| Session.QuerySpec | shload.c:447-455 | one exchange as every caller does it: `send`, then `receive` when `send` reports OK and the command is answered; the reply as its C string |
| Session.Query | shload.c:492-512 | the exchange: `send`, and `receive` when `send` reports OK and a reply is expected; the reply is reported as its C string; `status` is untouched unless the command was answered, and then holds the stored reply, a NUL, and its old contents beyond |
| Session.AnsweredReply | shload.c:473-490 | every command but `c` is either refused or answered; `c` is never answered, and no byte of the line is read for it |
| Session.NoReceiveAfterFailedSend | shload.c:447-461 | a refused command is never followed by a read, so the reply stays on the line |
| Session.QueryLoopback | shload.c:569-589 | against a line that takes every byte and answers with a packet, the command goes out framed, the reply is taken whole and acknowledged, and reported with OK |
| Session.QueryIdFrame | shload.c:300 | the ROM-version query goes out as `$qID#fe` |
| SRecord.FirstRecord | shload.c:420-425 | the skip loop stops at the first line whose type digit is at least 1 |
| SRecord.Signed | shload.c:423 | a byte read as C's signed `char`: below 128 it keeps its value, from 128 it is taken 256 lower |
| SRecord.RecordType | shload.c:423 | `temp_line[1] - '0'` on a signed `char`: bytes of 0x80 and above count as negative; the NUL after a line of one character is read as 0 |
| SRecord.ByteOrderMarkSkipped | shload.c:420-425 | a file starting with a UTF-8 byte order mark has a negative type on its first line, so the skip loop passes over it to the S1 record |
| SRecord.InRange | shload.c:427 | the record loop's test: the line starts with `S` and its type is at most 5 |
| SRecord.DataStart | shload.c:433 | the data field starts at `6 + 2 * type` |
| SRecord.Payload | shload.c:433-442 | the payload is lowercase hex |
| SRecord.PayloadCharacters | shload.c:433-440 | the payload is the data field's characters up to two before the first `\r`, in order, each re-rendered |
| SRecord.PayloadBytes | shload.c:433-442 | each digit pair of the payload has the value of the byte the record holds there |
| SRecord.PayloadOfLowercase | shload.c:432-437 | lowercase data goes out exactly as it stands in the record |
| SRecord.ExtractPayload | shload.c:433-440 | the `sprintf` loop builds what `Payload` specifies |
| SRecord.PayloadExample | shload.c:433-442 | an S1 record with mixed-case data gives its lowercased data without the checksum |
| Loader.PacketLength | shload.c:442 | the packet length is half the payload's digits, rounded down |
| Loader.Try | shload.c:427-447 | a line out of range ends the loop; a line in range without a data field is malformed; any other line is sent as the `M` packet of its payload at the current address |
| Loader.LoadFrom | shload.c:427-465 | the record loop: one `Try` per line; it ends at a line out of range, at a line without a data field, at a refused packet, or when the line falls silent during a reply, and otherwise goes on at the next line and address |
| Loader.GoesOn | shload.c:447-461 | the loop goes on after a packet unless `send` refused it or the line fell silent during its reply; a bad reply only is reported |
| Loader.LoadSpec | shload.c:420-465 | `load`: the skip loop finds the first record, and the record loop starts there at the base address |
| Loader.LoadAddresses | shload.c:444-454 | the first packet goes to the base address; each next one goes right after the bytes the previous one claimed, whatever the reply |
| Loader.LoadRecords | shload.c:427-465 | packet k comes from line i + k, carries its payload and half its length; one packet per line up to where the loop ended, plus the refused or unanswered one |
| Loader.FromLinesIndex | shload.c:427-465 | when the packets come from the lines from i on, packet k carries the data field of line i + k |
| Loader.LoadStops | shload.c:427-465 | the loop goes on past every packet but the last, whatever the reply status; it stops on a refused packet exactly when the last was refused, stalls exactly when the line fell silent during the last; it finishes only at the end of the file or at a line out of range |
| Loader.LoadLast | shload.c:447-461 | only a refused or unanswered packet stops the loop, and only as the last one |
| Loader.LoadEnds | shload.c:427 | the loop finishes only past the end or out of range, and is malformed only at a line without a data field |
| Loader.PacketsAnswered | shload.c:447-455 | every packet is refused or answered; the load stalls exactly when the last reply came with the line gone silent |
| Loader.FirstRecordAt | shload.c:420-425 | the skip loop stops exactly at the first line of type at least 1 |
| Loader.Load | shload.c:391-471 | the method's skip loop and record loop end as `LoadSpec` specifies, on the same line and with the same serial line |
| Loader.RecordLoop | shload.c:427-465 | the imperative record loop ends as `LoadFrom` specifies |
| Loader.LoadLine | shload.c:433-461 | one turn of the record loop does what `Try` specifies: it stops at a bad line or a failed packet, and otherwise advances by the packet length; `status` is untouched unless the packet was answered, and then holds the stored reply and a NUL |
| Handshake.StartNext | shload.c:666-668 | the next byte from `fgetc` is written and its echo awaited; at the end of the file the loader waits for ENQ again |
| Handshake.Step | shload.c:634-706 | one byte read: ENQ gets `*`; `L`, `O`, `x` are matched in turn; an echo sends the next image byte; `>` in place of an echo sends ACK and a newline; then `>` gets `g`, `g` gets a newline, and a newline hands the line over |
| Handshake.Run | shload.c:634-706 | `Step` over a run of bytes read, with everything written in order |
| Handshake.StepInv | shload.c:634-725 | every step keeps the file position within the image and the awaited echo equal to the last byte written |
| Handshake.RunInv | shload.c:634-725 | every state reached from a good state is good |
| Handshake.RunAppend | shload.c:634-725 | two runs of received bytes, one after the other, are one run over their concatenation |
| Handshake.Idle | shload.c:647-659 | bytes a wait ignores leave the state in place and write nothing |
| Handshake.NothingBeforeEnq | shload.c:634-639 | until an ENQ arrives nothing is written and the loader keeps waiting |
| Handshake.EnqAnswered | shload.c:638-643 | an ENQ is answered with `*` and starts the scan for the magic bytes |
| Handshake.ScanComplete | shload.c:646-660 | the scan completes exactly when `L`, `O`, `x` occur in this order among the bytes read |
| Handshake.MagicScan | shload.c:646-660 | while the magic is incomplete, nothing is written and no image byte goes out |
| Handshake.MagicThenImage | shload.c:656-668 | the byte that completes the magic starts the image |
| Handshake.MagicRun | shload.c:646-668 | the magic bytes read in order send the first image byte |
| Handshake.EchoWait | shload.c:670-721 | while neither the echo nor `>` arrives, nothing is written: image byte k + 1 goes out only after byte k came back |
| Handshake.PerfectEcho | shload.c:666-725 | a monitor that echoes every byte receives the rest of the image in order, and at its end the loader waits for ENQ again |
| Handshake.EnqMagic | shload.c:638-668 | an ENQ and the magic bytes get `*` and then the next image byte, if any |
| Handshake.Transfer | shload.c:634-725 | the whole transfer: `*`, then the image byte by byte, and then back to waiting for ENQ |
| Handshake.ImageExhausted | shload.c:666 | once the file is at its end, a later ENQ and magic get only `*` |
| Handshake.Handoff | shload.c:675-706 | a `>` in place of the echo sends ACK and a newline; until the next `>` nothing more is written, and then `g`; until the `g` comes back nothing more, and then a newline; the handoff comes at the next newline |
| Handshake.WaitThen | shload.c:686-706 | a read-until loop ignores other bytes, then moves on at the awaited byte |
| Handshake.HandedOffStays | shload.c:708-715 | after the handoff the loader writes nothing |
| Handshake.Emit | shload.c:620-631 | one write attempt per byte, its result ignored; the line's input is untouched |
| Handshake.Drive | shload.c:634-706 | the read loop: empty polls are skipped, each byte read goes through `Step` and its answer is written, until the handoff or until the line falls silent |
| Handshake.HintSpec | shload.c:620-706 | `hint`: the greeting `l : x\n`, then the read loop from waiting for ENQ at the start of the file |
| Handshake.EmitTaken | shload.c:620-631 | on a line that takes every write, the writes whose result is ignored lose nothing |
| Handshake.DriveRun | shload.c:634-706 | on a line that takes every write, the loader writes exactly the step function's answers to the bytes delivered, and stops in its final state |
| Handshake.HintOutput | shload.c:620-706 | on a line that takes every write, `hint` writes `l : x\n` and then the answers to every byte delivered, nothing else |
| Handshake.GreetingOnly | shload.c:620-639 | with no ENQ on the line, `hint` writes the greeting and nothing more |
| Handshake.WriteEach | shload.c:620-631 | one write attempt per byte, the result ignored, as `Emit` specifies |
| Handshake.Hint | shload.c:620-706 | the read loop ends at the handoff or when the line falls silent, with the line as `HintSpec` specifies |

## Left out

- `init`, `main`'s menu, `term` and every `printf`/`fprintf`: these are terminal set-up, console I/O and a pass-through loop. The ROM-version query is kept as a command (`qID`), but the copy of the reply into `romversion` is not part of this model.
- The pass-through loop at the end of `hint` (shload.c:708-715): it only copies received bytes to the console and never returns. The model stops in `HandedOff`.
- The file name prompt, `fopen`, the 5-second countdown and `sleep`. The S-record file is given as the sequence of lines `fgets` returns, and `hint`'s image as the sequence of bytes `fgetc` returns. The addresses read with `scanf` are parameters. This includes `memdump`'s `scanf("8%lx")`, which needs a literal `8` typed before the number.
- Lines longer than `MAXLINELEN` and the 64-character file name limit: `fgets` splitting long lines is not modelled.
- Integer widths: addresses are unbounded naturals, so the 64-bit `long` wrap-around of `loadaddr` is not modelled.
- Commands.Render: `run` formats `c%lx` into `char buf[16]` (shload.c:476, 482), so an address of 15 or more hex digits overflows that buffer in C; the model renders any address.
- Hex.Cksum: the model sums character codes as non-negative numbers. C's signed `char` counts bytes above 127 as negative, but in two's complement the low byte of the sum, the only part `cksum` uses, is the same either way. A `char` of the model stands for one byte; wider code points are not modelled.
- Framing.Board.Receive: a `read` that returns -1 on the non-blocking port is modelled as an empty poll, counted like a 0. The C code would instead store the stale `readch`.
- Framing.Board.ReadReply: the uninitialised `readch` before the first read is taken to be anything but `#`.
- Handshake.Hint: NoData reads in every wait are skipped. In C those `read` results are ignored, so a stale byte could be compared again; the model follows the evident intent.
- Handshake.Hint: image bytes are compared as full bytes. The `char c` that holds `fgetc`'s result cannot tell a 0xFF byte from EOF, and the model streams every byte of the image.
- Handshake.Hint: the nested read loops of `hint` are modelled as one loop over a step function. They wait for the same bytes in the same order.
- The acknowledgement is the framed packet `$+#2b`: `receive` calls `send("+")` (shload.c:258). The model sends exactly that.
- The checksum of a received reply is read and dropped, never checked, as in the code.
- Framing.SendSpec / Framing.Board.Send: a line that refuses one byte forever is not modelled. The write script is finite and every write past its end is taken, so the model's `send` always ends. In C the retry loop of each byte (shload.c:166-171, 180-185, 195-200, 210-215) has no ceiling test, and the counter is tested only between bytes (163, 177, 192, 207), so such a line makes `send` spin forever.
- Framing.SendSpec: `send` puts `$`, then `#`, then the two checksum digits into a 3-byte `malloc` buffer, each without a NUL after it (shload.c:158, 162, 191, and `cksum` at 145-146). Its loops stop at whatever byte follows in `buf[1]` or `buf[2]`, which the program never sets. The model takes those bytes to be NUL, so the frame is exactly `$cmd#ck`.
- Loader.Try / SRecord.Payload: a line in range whose data field cannot be read ends the load as `Malformed`. This happens when no `\r` follows the data offset (a file with bare `\n` line ends, or a last line without one), when the data offset lies past the end of the line, when it is negative (a type below -3, as for the line `S\n` of type -38, or a second byte of 0x80 or above), or when fewer than two characters precede the `\r`. C has no such stop: its loop at 434-437 runs past the line, reads stale bytes of `temp_line` or bytes before it, or writes before `pkt` at 440. An S5 record with a 16-bit count is of the second kind (data offset 16, 12 characters), so in the model an S5 record ends the load.
- Loader.Load / Loader.RecordLoop: what `status` holds when the load ends is not stated. These methods promise the stop and the serial line; `Loader.LoadLine` states the buffer for each packet.

## Findings

| source | as written | input that shows it | evidently intended | confidence | as-written member | corrected member |
|---|---|---|---|---|---|---|
| shload.c:41, 230-244 | `status` holds 1024 chars, the reply loop stores up to 1024 bytes, and `*tptr = '\0'` then writes index 1024 | a reply of 1024 bytes without `#` | room for the NUL after a full reply: a buffer of 1025 chars | not executed | Framing.TerminatorPastEndAsWritten | Framing.Board.Receive |
