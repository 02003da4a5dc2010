# Model of the answer and attendance receiver

The program listens on a serial or HID line to handheld cards. A reader thread hands every read to
a framer (`msgBuffer`), which cuts messages out of the byte stream and posts them to the main
window. The main window dispatches each message on its tag: it switches two session flags, counts
attendance packets per card in a table, and lists answers. Serial ports are enumerated into a list
that is filtered and named in place.

A frame is the marker `0xf9`, an address byte, and a tag that fixes the length: 18 bytes for tag 2
(an answer), 15 for tag 5 (attendance), 6 for tag 7, and 3 for tags 1, 3, 4 and 6. A *stream* is any
number of frames followed by an incomplete one.

| file | content |
|---|---|
| `Wire.dfy` | frames, streams, and how a stream can be cut |
| `Framing.dfy` | what the framer does with a window of bytes and with a sequence of chunks, on any bytes |
| `Streams.dfy` | streams: parsing, uniqueness, chunk independence |
| `Limits.dfy` | the largest safe chunk, recovery after an unknown tag or an overflow |
| `Noise.dfy` | frames behind bytes that belong to none |
| `Bounds.dfy` | where the copies of messages end |
| `MsgBuffer.dfy` | the framer itself, on its array |
| `Packets.dfy` | decoding of attendance and answer payloads |
| `Attendance.dfy`, `AttendanceLaws.dfy` | the attendance table, the history it stands for, and what follows |
| `CheckDialog.dfy`, `Answers.dfy` | the two dialogs |
| `Session.dfy` | dispatcher and flags |
| `EndToEnd.dfy` | reader and main window together, in any interleaving |
| `Ports.dfy` | the list of serial ports |

Methods mirror the program's own and are proved against functions; the lemmas say what these
functions, over all inputs and all runs, amount to. Lengths, tags, bytes and columns are stated there
as the numbers and names themselves, not through the functions that the methods are proved against.

## What the proofs brought to light

- The bound on chunks is exact. A framer of capacity `c` refuses no stream cut into chunks of at
  most `m` bytes, for `m` of at least 1, if and only if `m + 18 <= c`; with the default capacity of 2048 that is 2030 bytes.
- Chunk independence does not survive an unknown tag. Everything behind the tag in the same chunk is
  dropped with it, so later frames survive if and only if some chunk ends right behind the tag
  (`InterruptionHarmlessIff`).
- The framer measures and advances from the start of its window, not from the marker it found. A
  frame of `n` bytes behind `z` marker-free bytes is therefore posted `z / n + 1` times, so once if
  and only if `z < n`, and the scan goes on `z % n` bytes before the frame's end
  (`NoiseRepeatsFrame`, `RepeatsCount`).
- For the same reason it takes such a frame too early. The first copy is whole if and only if no
  chunk ends where at least `n` bytes and the tag, but not the whole frame, have arrived
  (`NoisyCopyWholeIff`); behind one stray byte that is one byte short of the frame's end.
- A copy can end behind the buffer. The length is checked against the window, but the copy starts at
  the marker (`wgw/common.cpp:103-113`). It stays inside the buffer if and only if window start,
  offset and length together do not exceed the capacity. This holds for every message of every
  stream (`StreamContained`). For arbitrary content of `n >= 18` bytes it is guaranteed if and only
  if 15 more bytes would fit (`NeverLeavesIff`), while the framer only makes sure of one. A read of
  2047 bytes into the default buffer can make it copy 14 bytes from behind the end
  (`CopyCanLeaveBuffer`).
- The check byte is compared with an untruncated signed sum. A sender that truncates its sum is
  understood if and only if the signed sum fits in a character (`TruncatedSumSoundIff`); for decimal
  ids this always holds.
- The column titled "first received" (`wgw/DlgCheck.cpp:46`) shows the time of the *second*
  accepted packet, and stays unset for a card seen once; "last received" is set from the third on.
  The model follows the code. The battery level shown is that of the first accepted packet.
- The comment at `wgw/EnumSerial.cpp:127-128` promises that "X (Y)" is shortened to "X". That holds
  if and only if X is not empty and has no " (", and neither X nor Y has a ")"
  (`DescriptionStripsIff`); no other name is shortened (`DescriptionKeepsIff`).

## Model

| member | source | states |
|---|---|---|
| Wire.WellFormedIffSplits | wgw/common.cpp:101-143 | a byte string is a prefix of some concatenation of frames if and only if it is whole frames followed by a strict prefix of one |
| Framing.PostingsAnnounced | wgw/common.cpp:118-143 | on any bytes, however cut, every posted message starts with 0xf9, has a tag of 1 to 7, and a length of 18 exactly for tag 2, 15 for tag 5, 6 for tag 7, 3 for tags 1, 3, 4 and 6 |
| Framing.MessageAlone | wgw/common.cpp:118-143 | a new framer posts its first read as one message, and keeps nothing, if and only if it is 0xf9, an address, a tag, and 18 bytes for tag 2, 15 for tag 5, 6 for tag 7, 3 for tags 1, 3, 4 and 6; these are the frames |
| Framing.FirstReadFate | wgw/common.cpp:118-182 | a first read of at least three bytes that starts with the marker is dropped if and only if its tag is not 1 to 7, and kept if and only if it is too short for its tag |
| Framing.BytesConserved | wgw/common.cpp:145-182 | on any bytes, over any run: the lengths of the posted messages, the buffered and the dropped bytes add up to the bytes offered |
| Framing.EmptyChunkIsNoOp | wgw/common.cpp:145-182 | no complete message is ever left behind: after any call, offering nothing posts nothing and changes nothing |
| Framing.BufferBelowCapacity | wgw/common.cpp:164-182 | on any bytes the buffer never fills up |
| Streams.FramesThenScan | wgw/common.cpp:91-162 | frames at the front of any window are posted whole, and what follows is handled as if it stood alone |
| Streams.UniqueSplit | wgw/common.cpp:91-143 | a stream determines its frames and its tail, even if payload bytes equal the marker |
| Streams.SerializeInjective | wgw/common.cpp:91-143 | different frame lists never have the same bytes |
| Streams.WellFormedIffScansClean | wgw/common.cpp:91-162 | a window is a stream if and only if it is cut up without skipping or dropping bytes and leaves a strict prefix of a frame |
| Streams.PrintThenParse | wgw/common.cpp:145-182 | frames offered in one piece to an empty framer are posted exactly, or refused if their bytes do not fit |
| Streams.ChunkIndependence | wgw/common.cpp:91-182 | any cutting of a stream into chunks of at most capacity minus 18 bytes posts exactly its frames in order, refuses and drops nothing, and leaves exactly the tail, of at most 17 bytes |
| Limits.NeverRefusesIff | wgw/common.cpp:164-169 | for m of at least 1, chunks of at most m bytes are never refused, on any stream, if and only if m + 18 is at most the capacity |
| Limits.Recovery | wgw/common.cpp:138-182 | an unknown tag at a frame boundary: the frames before it are posted, the rest of the chunk that completes it is dropped, later chunks are handled as by a new framer |
| Limits.InterruptionHarmlessIff | wgw/common.cpp:138-154 | the frames behind an unknown tag are all posted if and only if there are none or a chunk ends right behind the tag |
| Limits.OverflowRecovery | wgw/common.cpp:164-169 | a refused chunk posts nothing and empties the buffer; every later stream is handled as by a new framer |
| Limits.InterruptionCanLose | wgw/common.cpp:138-154 | a frame in the same chunk as an unknown tag is lost |
| Noise.NoisyLook | wgw/common.cpp:91-143 | marker-free bytes and part of a frame: when the frame is taken, and that the copy holds exactly the part received |
| Noise.NoiseRepeatsFrame | wgw/common.cpp:91-162 | a frame behind marker-free bytes, whatever follows: what is posted, how far the scan advances, and where inside the frame it goes on |
| Noise.RepeatsCount | wgw/common.cpp:145-162 | these postings are copies of the whole frame, one more than it fits into the noise, so one if and only if the noise is shorter than the frame |
| Noise.NoiseRunsThrough | wgw/common.cpp:91-162 | noise before any number of frames without a second marker: every frame is posted whole at least once, how often each, and how much noise stays buffered |
| Noise.NoisyCopyWholeIff | wgw/common.cpp:91-182 | over all chunkings of noise and a frame, the first message is the whole frame if and only if no chunk ends where it is already taken but incomplete |
| Noise.StrayByteWholeIff | wgw/common.cpp:91-182 | behind one stray byte: if and only if the frame has three bytes or no chunk ends one byte short of it |
| Bounds.StreamContained | wgw/common.cpp:101-116 | on every stream, however cut into fitting chunks, every copy ends inside the buffer |
| Bounds.NeverLeavesIff | wgw/common.cpp:101-143 | for at least 18 bytes of any content the copies stay inside the buffer if and only if 15 more would fit |
| Bounds.RoomyContained | wgw/common.cpp:101-182 | a run on any bytes that always leaves that much room never copies from behind the buffer |
| Bounds.CopyCanLeaveBuffer | wgw/common.cpp:101-116 | 2047 bytes with a late marker make the framer copy 14 bytes from behind the default buffer |
| Framer.MsgBuffer.constructor | wgw/common.cpp:78-84 | a new framer is empty, with the given capacity or 2048 |
| Framer.MsgBuffer.GetMsgStart | wgw/common.cpp:91-99 | finds the first marker with two bytes after it, if there is one |
| Framer.MsgBuffer.ProcessMsg | wgw/common.cpp:101-116 | posts the message unless the window is shorter than it, with the bytes received of it, and records whether the copy ends inside the buffer |
| Framer.MsgBuffer.GetMsgOne | wgw/common.cpp:118-143 | waits, drops or posts one message, exactly as the window demands: -1 exactly for a tag that is not 1 to 7, and 18, 15, 6 or 3 exactly for the tags with these lengths and a window that long |
| Framer.MsgBuffer.GetMsg | wgw/common.cpp:145-162 | ends, with all its assertions met, having posted every message the buffer holds |
| Framer.MsgBuffer.AddInput | wgw/common.cpp:164-182 | the buffer, the posted messages, each with the length of its tag as a number, the result and whether every copy stayed inside the buffer, after any chunk, refused ones included |
| Framer.ReadLoop | wgw/common.cpp:164-182 | a framer fed read after read behaves as the sequence of chunks, copies included |
| Packets.ReadCheckPacket | wgw/DlgCheck.cpp:99-122 | the id and checksum loop with its signed characters: bytes 3 to 12 as ten digits or F, byte 13 as the battery level if at most 5 and otherwise 6, and sound if and only if byte 14 is the sum of the ten id bytes, all as signed characters |
| Packets.DigitsSoundIff | wgw/DlgCheck.cpp:101-122 | for a decimal id a packet is sound if and only if its check byte is the sum of the digits, which is at most 90 |
| Packets.TruncatedSumSoundIff | wgw/DlgCheck.cpp:101-122 | a check byte truncated by the sender is accepted if and only if the signed sum lies between -128 and 127 |
| Packets.TruncatedSumCanFail | wgw/DlgCheck.cpp:101-122 | ten id bytes of 13 with their truncated sum are counted as an error |
| Packets.SingleErrorDetected | wgw/DlgCheck.cpp:101-122 | changing one id byte or the check byte of a sound packet always makes it unsound |
| Packets.SameIdIff | wgw/DlgCheck.cpp:104-106 | two packets share a map key if and only if they agree on every digit and have non-digits in the same places |
| Packets.ReadAnswer | wgw/DlgAnswer.cpp:125-141 | the text is "yes" if and only if the first byte is 1, "no" if and only if it is 2, and otherwise the longest run of letters that half bytes of at least 10 stand for |
| Packets.LettersArePrefix | wgw/DlgAnswer.cpp:130-140 | the letters decoded are the longest prefix of half bytes of at least 10, high half first, where 10 stands for A |
| Packets.AnswerRoundTrip | wgw/DlgAnswer.cpp:125-141 | every word over A to F of at most eight letters, packed and padded with 0, decodes to itself |
| Packets.AnswerTextCanonical | wgw/DlgAnswer.cpp:125-141 | any payload but the two reserved ones decodes to such a run of letters, and packing it gives the same text |
| Packets.ReservedAnswers | wgw/DlgAnswer.cpp:125-141 | "yes" and "no" are the texts of exactly the payloads that start with 1 and with 2 |
| Attendance.TableShowsHistory | wgw/DlgCheck.cpp:54-172 | in every reachable state entries and rows are exactly the summary of the accepted packets since the last clear, in order of first appearance |
| AttendanceLaws.RowIndexBijective | wgw/DlgCheck.cpp:54-92 | in every reachable state the row index is a bijection from cards onto rows, and the row of each card has its index, id, first time, last time, battery level, count and error count in the columns of those names |
| AttendanceLaws.EntryIsFoldOfHistory | wgw/DlgCheck.cpp:116-146 | the two counters are the numbers of sound and of unsound accepted packets modulo 2^32, the first time is that of the second packet or 0, the last time that of the latest from the third on or 0, the battery level that of the first |
| AttendanceLaws.TimesUnsetIff | wgw/DlgCheck.cpp:127-137 | under a positive clock that does not run backwards, the first time is unset if and only if one packet was accepted, the last time if and only if at most two were |
| AttendanceLaws.RateBound | wgw/DlgCheck.cpp:116-148 | under such a clock a card has at most last minus first plus 3 accepted packets, and its counters do not wrap while that is below 2^32 |
| AttendanceLaws.AcceptedTotal | wgw/DlgCheck.cpp:124-148 | under such a clock the packets accepted of a card are its first two and one for every second in which any of the others arrived |
| Checking.CheckDialog.constructor | wgw/DlgCheck.cpp:14-18 | map and list start empty |
| Checking.CheckDialog.UpdateCheck | wgw/DlgCheck.cpp:54-74 | in the row of the item exactly first time, last time, battery level, count and error count become those of the item; nothing else changes |
| Checking.CheckDialog.InsertCheck | wgw/DlgCheck.cpp:76-92 | adds a row and an entry together at the end, each field by name, or neither |
| Checking.CheckDialog.ProcessMsgCheck | wgw/DlgCheck.cpp:94-149 | new card, repeated packet, packet in the recorded second, refused row: every field of the new entry and row, what stays as it is, and the result |
| Checking.CheckDialog.OnClear | wgw/DlgCheck.cpp:167-172 | empties map and list |
| Answers.BoardShowsKept | wgw/DlgAnswer.cpp:53-81 | in every reachable state list and vector have equal length, both hold id, text, time and battery level of the same answer at place i, numbered size - 1 - i, and read from the back they are the answers kept since the last clear |
| Answers.AnswerDialog.InsertAnswer | wgw/DlgAnswer.cpp:53-81 | puts row and element in front together, each field by name, or neither |
| Answers.AnswerDialog.ProcessMsgAnswer | wgw/DlgAnswer.cpp:113-146 | the id shows bytes 3 to 12 as digits or F, the battery level is byte 13 as a signed character, the text decodes bytes 14 to 17, and element and row in front hold them with the time and the number |
| Answers.AnswerDialog.OnClear | wgw/DlgAnswer.cpp:166-171 | empties vector and list |
| Session.FlagsFollowLastMessage | wgw/wgwDlg.cpp:28-61 | over any run, checking is on if and only if the last message tagged 4, 5 or 6 was a 4 or 5, answering if and only if the last one tagged 1, 2 or 3 was a 1 or 2 |
| Session.CheckSeesItsMessages | wgw/wgwDlg.cpp:38-42 | over any run the attendance table is that of the attendance messages and its own clears alone |
| Session.AnswerSeesItsMessages | wgw/wgwDlg.cpp:31-37 | over any run the answer board is that of the answers and its own clears alone |
| Session.MainWindow.constructor | wgw/wgwDlg.cpp:114-129 | both flags start off, both dialogs empty |
| Session.MainWindow.SetOpenAnswerEd | wgw/wgwDlg.cpp:666-672 | the flag takes the value |
| Session.MainWindow.SetCheckOn | wgw/wgwDlg.cpp:674-680 | the flag takes the value |
| Session.MainWindow.GetMsgOne | wgw/wgwDlg.cpp:28-61 | for every tag the new flags, that tag 2 reaches the answer dialog alone and tag 5 the attendance dialog alone, and -1 exactly for a tag that is not 1 to 7 |
| Session.MainWindow.OnUserThreadEnd | wgw/wgwDlg.cpp:723-731 | a posted message is dispatched |
| EndToEnd.EveryMessageAccepted | wgw/wgwDlg.cpp:28-61 | on any bytes, every message handled starts with 0xf9 and is 18 bytes long with tag 2, 15 with tag 5, 6 with tag 7, or 3 with tag 1, 3, 4 or 6, so its handler reads no byte behind it |
| EndToEnd.FramesReachTheWindow | wgw/common.cpp:91-182 | for any stream, any fitting chunks and any interleaving, nothing is refused, no copy leaves the buffer, the messages handled are the first frames of the stream, unchanged, and the others wait in the queue |
| EndToEnd.WindowFollowsStream | wgw/wgwDlg.cpp:28-61 | while a stream arrives, in any fitting chunks and any interleaving, flags, table and board are those of the dispatcher folded over the frames handled, each with its time, and the clears between them |
| EndToEnd.DeliveryIrrelevant | wgw/wgwDlg.cpp:28-61 | two deliveries of one stream with the same clears and effective deliveries, which are read off stream and events alone, end in the same flags, table and board |
| EndToEnd.ReachableWindow | wgw/wgwDlg.cpp:28-61 | in every reachable state, on any bytes: the flags follow the last message of their tags, the table shows the history of accepted packets, the row of every card repeats its entry column by column, and the board's items and rows are those of the answers kept |
| EndToEnd.ReachableRateBound | wgw/DlgCheck.cpp:116-148 | the rate bound on what the window shows, in every reachable state |
| EndToEnd.Run | wgw/wgwDlg.cpp:723-731 | framer, window and dialogs, driven by any events, are in the state the model gives |
| EndToEnd.Boot | wgw/common.h:66-70 | the run starts from a framer of 2048 bytes, an empty queue and an empty window |
| Ports.DescriptionStripsIff | wgw/EnumSerial.cpp:124-135 | "X (Y)" becomes "X" if and only if X is not empty and has no " (", and neither part has a ")" |
| Ports.DescriptionKeepsIff | wgw/EnumSerial.cpp:124-135 | every name that is not of that form is its own description, so also one without " (" and one that does not end in ")" |
| Ports.DescriptionCanFail | wgw/EnumSerial.cpp:124-135 | "A (B) (C)" is left as it is |
| Ports.NamedTwice | wgw/EnumSerial.cpp:119-135 | naming keeps path, port name, the USB flag and a description that is there, takes the port name if there is no friendly name, and changes nothing the second time |
| Ports.FinishedMembers | wgw/EnumSerial.cpp:94-136 | a port is in the finished list if and only if it is the finished form, stated field by field, of a port that could be opened |
| Ports.FinishedTraced | wgw/EnumSerial.cpp:94-136 | the finished list is, port by port and in order, the finished forms of exactly the places of the original list that hold a port that could be opened |
| Ports.FinishedTwice | wgw/EnumSerial.cpp:94-136 | a second pass over the finished list changes nothing |
| Ports.CollectedReflects | wgw/EnumSerial.cpp:378-391 | after any discoveries names are distinct and in order of first discovery, none is missing, and each entry is the last found for its name |
| Ports.PortArray.AddPort | wgw/EnumSerial.cpp:378-391 | overwrites the port of the same name in place, or adds it at the end |
| Ports.PortArray.SearchPnpKey | wgw/EnumSerial.cpp:334-403 | the ports of one key are added to those collected before |
| Ports.PortArray.SearchKeys | wgw/EnumSerial.cpp:261-332 | key after key comes to one search over all that they hold, in the order of the keys |
| Ports.PortArray.EnumSerialPorts | wgw/EnumSerial.cpp:66-137 | whatever the list held before, it is emptied, collected without duplicates, and every port it ends with is traced to a collected one, with each field as naming promises |
| Ports.PortArray.NameAt | wgw/EnumSerial.cpp:119-135 | an empty friendly name becomes the port name, an empty description that of the friendly name; path, port name, the USB flag, descriptions that are there and all other ports stay |
| Ports.PortArray.FilterAndName | wgw/EnumSerial.cpp:94-136 | removing while iterating ends, tries every original port exactly once and in order, and leaves exactly the ports that can be opened, in order, each traced to its original and named field by field |

## Left out

- MsgBuffer.AddInput: lengths are mathematical integers, because a sum that wraps in 32 bits needs a chunk of nearly 4 GB in memory.
- MsgBuffer.ProcessMsg: allocation and posting always succeed; the source silently loses the message when they fail.
- MsgBuffer.ProcessMsg: of a message whose frame starts behind stray bytes, the posting records the bytes received; the rest is an input of the event that delivers it.
- EndToEnd.EveryMessageAccepted: a copy that ends behind the buffer is taken to bring back some bytes or other, though in the source its effect is undefined; `contained` tells the runs without one, and the same holds for EndToEnd.Run and EndToEnd.ReachableWindow.
- The window's message queue: taken to be unbounded and first in, first out.
- Noise that itself holds markers: only the bounds, the conservation law and the acceptance of messages are claimed for it.
- The outgoing command queue: `CWorkThread` is not part of this model.
- CheckDialog.ProcessMsgCheck: the clock is an input of every packet, and so is whether the list control takes a new row.
- CheckDialog.UpdateCheck: columns hold the values; their formatting as dates and decimal numbers is not modelled.
- ReadCheckPacket: `_istdigit` is taken to hold for the characters 0 to 9 only, whatever the code page.
- PortArray.FilterAndName: which paths can be opened is a set that does not change during the pass.
- The hex dump of tag 7 messages and the window title: display only.
- The second answer refresh (`updateAnswer`): nothing calls it.
- Device enumeration, opening and configuration, menus, timers, settings and the TCP server: operating system calls without logic of their own.
