# ps2client, modelled and proved in Dafny

ps2client connects a host computer to a PlayStation 2 that runs ps2link: it prints the console
output that comes in over UDP, watches it for a marker line that ends the run, serves the PS2's
`host:` file requests over TCP, and sends commands. fsclient copies files to and from a ps2netfs
server. This project models these parts as they behave in the C code, step by step where the code
works step by step, and proves what they are for.

`dafny verify dfyconfig.toml` checks everything.

| file | what it holds |
|---|---|
| `Bytes.dfy` | bytes, 32-bit integers in both readings, big-endian fields, C strings, `strstr`, `strtol` |
| `Scanner.dfy` | the console line buffer (a 4096-byte array) and the marker latch, against a scanner on values |
| `ConsoleMeaning.dfy` | what the scanner's state means in terms of the lines of the output |
| `MainLoop.dfy` | the main loop, the two threads and the clock as a state machine; all schedules |
| `Network.dfy` | a connection that moves data in pieces, and the loops of `network.c` |
| `Utility.dfy`, `Argv.dfy` | open flags, path rewriting in place, argument packing and its inverse |
| `HostFiles.dfy`, `HostFacts.dfy` | the host's files, descriptors and short reads and writes, as the operating system shows them, and what they mean |
| `Protocol.dfy` | packets: frames, requests and responses, and their round trips |
| `ServerSpec.dfy`, `Server.dfy` | the request service on values, and the request thread that is proved to do it |
| `ServerFacts.dfy` | the service as direct file operations, as a map of directories, and as keeper of the ping descriptor |
| `Peer.dfy` | the test peer's side, joined to the request thread: loading a file end to end |
| `Handshake.dfy` | the handshake's loop, and the handshake with a lossy channel and overlapping retries |
| `NetFs.dfy`, `FsClient.dfy`, `CopyFacts.dfy` | ps2netfs commands, the copy loops against any server, and against an honest one |
| `ResetCheck.dfy` | the reset observer |
| `Symbolize.dfy`, `ExceptionLines.dfy`, `LogFacts.dfy` | the exception-log symbolizer, exactly which calls it makes and for which numbers, and what its output leaves of the log |
| `Spelling.dfy` | the byte constants and exit statuses, spelled |

Threads are modelled as atomic steps between two releases of the one lock. What the operating
system and the network do is a parameter: how many bytes each call moves, when it is interrupted or
fails, how time passes, how child processes end. A theorem about all parameters is a theorem about
all of that.

What the proofs found out about the code, each stated exactly by a lemma named below:

- A marker in the discarded front of a line of 4096 or more kept bytes is missed. A line latches
  exactly when a copy of the marker starts inside the closed-form window (`OneLine`,
  `FrontMarkerMissed`).
- The exit status of a marker line is the low byte of the number, so `status=256` exits with 0 and
  `status=-1` with 255 (`PrintedStatusIsExit`).
- LSEEK takes its offset unsigned (src/ps2link.c:577), so it seeks where it was asked to in every
  state exactly when the offset is not negative or the request is refused anyway (`LseekAsAsked`).
- A WRITE packet and its data are taken together exactly when the data is shorter than 2 GB. A bigger
  size is negative to the receive (src/ps2link.c:542): nothing is received, what the fresh buffer
  holds is written, and the data is read as the next packets (`WriteTaken`, `RequestWrite`).
- A copy takes the file's length as an int. Against an honest server and with a local file that works
  it returns 0 exactly when that length is not negative (and the file can be opened), and then it has
  the whole file exactly when the file is shorter than 2 GB (`CopyFromServer`, `CopyToServer`). A file
  of 4 GB is copied as an empty one, with result 0 (`BigFileCopiedFrom`, `BigFileCopiedTo`).
- Fixing a path twice is not fixing it once, exactly for paths that start with two slashes of either
  kind and go on (`FixedPathTwice`).
- The symbolizer writes the log's own bytes unchanged exactly when the log has no null byte
  (`OutputIsTheInput`). Its annotations are lines of their own exactly when every annotated line, as
  fgets read it, ends in a newline (`OwnLinesIff`); then deleting those lines gives the log back
  (`AnnotatedLogKeepsTheLog`). After a last line without a newline, or a piece that fills the buffer,
  the annotation goes on in the log's line; from a log of one such last line no deletion of output
  lines gives the log back (`CutOffLogIsLost`).
- The peer's file loader cannot tell an empty file from a missing one (`LoadsTheFile`).

Where the documentation and the code disagree, the model follows the code: the protocol document
gives READDIR and CLOSEDIR the numbers 0171 and 0181 (doc/ps2link-protocol.txt:342,
doc/ps2link-protocol.txt:416), the code 0181 and 0171; the document puts a flags field into REMOVE and
RMDIR (doc/ps2link-protocol.txt:446, doc/ps2link-protocol.txt:486), the code does not.

## Model

| member | source | states |
|---|---|---|
| Bytes.Find | src/ps2link.c:85-88 | strstr (section 7.21.5.7 of ISO C99): the result is the first place where the word occurs, and none only if it occurs nowhere |
| Bytes.StrtolOfPrinted | src/ps2link.c:89 | strtol base 10 (section 7.20.1.4 of ISO C99) reads back every printed number, with white space and a sign before it and any non-digit after it, as the nearest 64-bit value |
| Bytes.StrtolOfText | src/ps2link.c:89 | text that begins with no white space, sign or digit reads as 0 |
| Bytes.OneMoreDigit | src/ps2link.c:89 | one more digit makes ten times the number and the digit |
| Bytes.BigEndian | tests/fake_ps2link.c:48-52 | htonl leaves the most significant byte first |
| Bytes.Get32Put32 | tests/fake_ps2link.c:42-52 | ntohl after htonl gives the number back, for all 32-bit values |
| Scanner.Console.CheckLine | src/ps2link.c:82-92 | on the array: the latch is set by the first line with the marker only, with that line's status, and the line stays as it is |
| Scanner.Console.CheckPartial | src/ps2link.c:213-229 | the main loop's check of a line that has not ended: a line check if there is a marker, nothing is latched and the line is not empty |
| Scanner.Console.MoveEndToFront | src/ps2link.c:107-111 | the overlapping memmove leaves the old end of the line at the front |
| Scanner.Console.ScanConsole | src/ps2link.c:95-117 | the in-place scan of a packet takes the array, the length, the latch and the status where the value-level scanner goes; every index stays inside the array |
| Scanner.ScanFits | src/ps2link.c:100-114 | after any bytes the line and its terminating null fit the buffer, and the line holds no null |
| ConsoleMeaning.LinesAreTheOutput | src/ps2link.c:100-114 | the lines with their newlines, and the open line, are the output without returns and nulls, and no line holds any of the three |
| ConsoleMeaning.PutWindow | src/ps2link.c:106-113 | the closed form of the buffer: after n kept bytes it is the last L(n), with L(n) = n up to 4095 and 257 + (n - 4096) mod 3839 beyond; one byte more keeps it so |
| ConsoleMeaning.VerdictMeaning | src/ps2link.c:84-90 | among any lines a status is chosen iff some line is a hit, and it is the first hit's |
| ConsoleMeaning.ScanMeaning | src/ps2link.c:82-117 | after any output: the buffer is the window of the open line, the latch is set iff some ended line holds the marker in its window, and the status is the first such line's |
| ConsoleMeaning.CuttingUnobservable | src/ps2link.c:1001-1008 | however the output is cut into packets, the final state is that of the joined bytes |
| ConsoleMeaning.LatchIsFinal | src/ps2link.c:85 | once latched, neither more output nor a partial-line check changes flag or status |
| ConsoleMeaning.HitIffInWindow | src/ps2link.c:106-113 | a line of any length is a hit iff a copy of the marker starts inside the window |
| ConsoleMeaning.ShortLineHit | src/ps2link.c:84-85 | up to 4095 kept bytes a line is a hit iff it contains the marker |
| ConsoleMeaning.LongLineHit | src/ps2link.c:106-113 | no false positives at any length, and no marker in the last 257 kept bytes is missed |
| ConsoleMeaning.OneLine | src/ps2link.c:100-114 | a line scanned on its own latches iff a copy of the marker starts inside the window, for every line and marker |
| ConsoleMeaning.FrontMarkerMissed | src/ps2link.c:106-111 | a concrete line that contains the marker and does not latch |
| ConsoleMeaning.EmptyMarkerHitsAll | src/ps2client.c:115 | an empty marker would be found on every line, which is why the client refuses it |
| ConsoleMeaning.NoField | src/ps2link.c:88-89 | a line with no "status=" from the marker on has status 0 |
| ConsoleMeaning.PrintedStatus | src/ps2link.c:88-89 | a line whose first "status=" from the marker on is followed by white space, a sign and a number gives that number as an int |
| ConsoleMeaning.FirstMarkerLineDecides | src/ps2link.c:85-90 | when no line up to it overflows, the first line that contains the marker sets the latch and the status |
| ConsoleMeaning.PrintedExit | src/ps2link.c:207 | output whose first marker line prints such a number leaves the scanner with its low byte as the exit status |
| ConsoleMeaning.PlainExit | README.md:61-63 | output whose first marker line has no "status=" from the marker on latches status 0 |
| MainLoop.RunInv | src/ps2link.c:194-240 | the invariant of every schedule of main loop, console thread, request thread and clock |
| MainLoop.ExitStep | src/ps2link.c:206-232 | every step that ends the loop is justified by the output scanned so far, the lost flag and the clock alone |
| MainLoop.FullMeaning | src/ps2link.c:216 | the partial-line check at the decision counts the open line as a last line, after all ended ones |
| MainLoop.LookedIsActivity | src/ps2link.c:206-224 | what the loop judges by is what it saw at an earlier look: no marker, whether the connection was lost, and the shared time of the last activity |
| MainLoop.BeforeExit | src/ps2link.c:204-235 | every ended run has a step that ended it: not ended before it, ended with this exit after it |
| MainLoop.ExitJustified | src/ps2link.c:194-240 | in every interleaving the exit is justified where it was decided: by a marker line, by a connection lost at least 500 ms before, or by no activity for at least timeout * 1000 ms since one that was seen, after the loop began, at a look that found no lost connection |
| MainLoop.LatchedMarkerWins | src/ps2link.c:207-229 | in every run: a marker in an ended line by the decision always gives the exit status; in the open line too, unless an ended marker line already ended the loop |
| MainLoop.PrintedStatusIsExit | README.md:61-63 | in every run: a program whose first marker line prints a number after "status=" by the decision ends the client with its low byte |
| MainLoop.PlainMarkerIsExit0 | README.md:61-63 | in every run: when the first marker line by the decision has no "status=" from the marker on, the client ends with 0 |
| MainLoop.StatusTellsReason | src/ps2link.c:217-228 | in every run without a marker in the output up to the decision: 74 iff the connection was lost, 124 iff idle with a marker option, 0 iff idle without one or no waiting was asked for |
| MainLoop.OneTurn | src/ps2link.c:204-235 | one turn from look to look, whatever the other threads do between its steps: a marker seen at the look ends it at once, a lost connection after 500 ms, idleness at once, each with the status that fits and in this order; else it looks again after 20 ms |
| MainLoop.LostIsNeverIdle | src/ps2link.c:213-232 | in every run: once the loop is about to look at a lost connection, it never ends as idle |
| MainLoop.HangUpIsKept | src/ps2link.c:1064-1065 | in every run: once the request thread has hung up, the connection is lost for good |
| MainLoop.StampsCount | src/ps2link.c:62-66 | in every run: no look after a thread's note of activity judges by an older time |
| MainLoop.EachIsStamped | src/ps2link.c:1008-1060 | in every run: between two packets of output, and between two requests, the thread notes its activity |
| MainLoop.ExitIsLowByte | src/ps2link.c:207 | the exit status of a marker is the byte that differs from the status by a multiple of 256 |
| Utility.FixFlagsMeaning | src/utility.c:18-45 | every combination of flags comes out as asked, other bits do not matter, and only access 2 adds truncation |
| Utility.FixPathname | src/utility.c:47-69 | the in-place rewriting leaves the fixed path, null-terminated, and nothing before it changes |
| Utility.FixedPathBytes | src/utility.c:47-69 | byte by byte: one leading slash of either kind is dropped unless it is all there is, every backslash becomes a slash, all else stays; an empty path becomes "." |
| Utility.FixedPathShape | src/utility.c:47-69 | a fixed path is never empty or longer than it was (but for "."), and has no backslash |
| Utility.FixedPathTwice | src/utility.c:55-64 | fixing a fixed path changes it iff two slashes of either kind and more led the original |
| Argv.FixArgv | src/utility.c:71-93 | packing succeeds iff the lengths with their nulls add up to at most the size; then the buffer is the packed strings and zeros, and nothing behind it changes |
| Argv.ArgumentsFit | src/ps2client.c:144-148 | the capped sum agrees with the packing: it passes iff the packed arguments take at most 256 bytes |
| Argv.ReadArguments | tests/fake_ps2link.c:283-297 | the peer's walk by offsets gives the strings of the buffer, at most count of them |
| Argv.ArgvRoundTrip | src/ps2link.c:287-299 | what the client packs, the peer unpacks to the same list, empty strings included |
| Network.Connection.ReceiveAll | src/network.c:183-203 | for all short and interrupted receives: the exact bytes from the front of the stream and no others, or -1; when no call fails, -1 iff the stream is too short |
| Network.Connection.SendAll | src/network.c:134-154 | for all short and interrupted sends: exactly the data, or -1 with a front of it; a size that is not positive sends nothing |
| HostFiles.ReadStep | src/ps2link.c:500-515 | read takes the next bytes of the file, at least one before its end, none only at its end, and touches nothing else |
| HostFacts.SeekMeaning | src/ps2link.c:577 | a seek goes to the offset from the start, the position or the end, changes nothing else, leaves the bytes from there on to be read, and refuses to go before the start |
| HostFacts.SeekBack | src/ps2link.c:577 | seeking back from the position by what was read undoes the read |
| HostFacts.WriteMeaning | src/ps2link.c:545-560 | a write puts what it took at the position, or at the end for an appending descriptor, and leaves all other bytes and files |
| HostFacts.OpenMeaning | src/ps2link.c:455-463 | an open succeeds iff a descriptor is free and the file exists or may be created and is no directory; it empties only what it truncates |
| Protocol.RequestNumbers | src/ps2link.h:86-97 | exactly twelve numbers are requests, sixteen apart from 0xBABE0111 on |
| Protocol.HeaderRoundTrip | src/ps2link.c:1035-1043 | the six-byte header is read back as written |
| Protocol.StopsAtBadLength | src/ps2link.c:1038-1043 | the service stops at a header iff its length is outside 6..518 or the packet is cut off |
| Protocol.NextEncoded | src/ps2link.c:1035-1043 | a frame takes exactly its own bytes off the stream, also for numbers that are not known |
| Protocol.FramesInStep | src/ps2link.c:1028-1062 | any sequence of frames is decoded to itself, and decoding goes on with what follows |
| Protocol.FramesAreTheStream | src/ps2link.c:1028-1062 | decoding drops and invents no byte: the frames encoded again are the stream |
| Protocol.RequestRoundTrip | tests/fake_ps2link.c:73-140 | every request a peer can pack is parsed by the client to the same request |
| Protocol.RequestLayout | src/ps2link.c:440-640 | every packed request, byte offset by byte offset: its number, its length field, and each of its fields where the client takes it |
| Protocol.WriteTaken | src/ps2link.c:535-542 | the packet and the data of a WRITE are taken together, and the next packet starts after them, iff the data is shorter than 2 GB |
| Protocol.ReplyHeader | src/ps2link.c:810-980 | a response is numbered one up from its request and announces its packet's exact size; only READ data follows, max(0, size) bytes of it |
| Protocol.ReplyRoundTrip | src/ps2link.c:810-980 | a peer that knows its request recovers every signed result and the data, and is left in step |
| ServerSpec.FreeSlot | src/ps2link.c:595 | the slot found is free and every earlier one is taken |
| ServerSpec.HandleGood | src/ps2link.c:1046-1057 | exactly the recognised requests get a response, and it has the size its packet announces |
| ServerSpec.ServeAppend | src/ps2link.c:1028-1062 | serving two stretches of whole frames one after the other is serving them together |
| Server.RequestServer.OpenAndReply | src/ps2link.c:449-466 | OPEN after its arguments are fixed: the new state and the one response |
| Server.RequestServer.RequestOpen | src/ps2link.c:440-468 | from packet buffer to response: what the service specifies for the packet's body |
| Server.RequestServer.RequestClose | src/ps2link.c:470-486 | the same for CLOSE, and the handshake's flag |
| Server.RequestServer.RequestRead | src/ps2link.c:488-528 | the same for READ on both buffer paths, so the 65536-byte threshold cannot be observed |
| Server.RequestServer.RequestWrite | src/ps2link.c:530-570 | the same for WRITE on both buffer paths and for every size; nothing at all happens when its data does not arrive; from 2 GB on nothing is received and the fresh buffer is written |
| Server.RequestServer.RequestLseek | src/ps2link.c:572-582 | the same for LSEEK |
| Server.RequestServer.OpenDirAndReply | src/ps2link.c:592-607 | the search loop over the slots and the response |
| Server.RequestServer.RequestOpenDir | src/ps2link.c:584-608 | from packet buffer to response for OPENDIR |
| Server.RequestServer.RequestCloseDir | src/ps2link.c:610-632 | the same for CLOSEDIR, errors included |
| Server.RequestServer.RequestReadDir | src/ps2link.c:634-701 | the same for READDIR, errors and the end of the directory included |
| Server.RequestServer.ServePacket | src/ps2link.c:1045-1057 | the dispatch: a packet is performed as specified, an unknown number changes and sends nothing |
| Server.RequestServer.ReceivePacket | src/ps2link.c:1033-1043 | a packet is received exactly when the stream has one in front, whatever pieces it comes in |
| Server.RequestServer.ServeNext | src/ps2link.c:1028-1062 | one turn: a whole frame is performed, or nothing is, and that only without a whole frame or after a failed receive |
| Server.RequestServer.ThreadRequest | src/ps2link.c:1020-1070 | whatever receives and sends do, the thread ends with the lost flag set, having served whole frames from the front of the stream in order; all there are if no receive failed |
| ServerFacts.ServiceInStep | src/ps2link.c:1028-1062 | for any request sequence: the service's final state is that of the requests one by one, and the peer reads exactly their replies, in order, with no byte left over |
| ServerFacts.WireRefinesFiles | src/ps2link.c:440-582 | a peer that sends any OPEN, CLOSE, READ, WRITE and LSEEK requests finds the files and reads the results as if it had made the system calls itself |
| ServerFacts.ThreadServesFiles | src/ps2link.c:1020-1070 | the thread itself, for all short and interrupted transfers: the host ends as after the direct system calls, and the peer reads exactly their results |
| ServerFacts.OthersInOrder | src/ps2link.c:703-804 | REMOVE, MKDIR, RMDIR and GETSTAT answer what their system calls return, each its own, in order, and change nothing else |
| ServerFacts.LseekAsAsked | src/ps2link.c:577 | an LSEEK request does the seek that was asked for, in every state and on every descriptor, iff the offset is not negative or whence is unknown |
| ServerFacts.HandleKeepsPing | src/ps2link.c:449-481 | only a successful CLOSE of the live null-device descriptor sets the handshake's flag, and only OPEN of the ping file makes a new one |
| ServerFacts.RunKeepsPing | src/ps2link.c:449-481 | over every request trace the ping descriptor is negative or open on the null device |
| ServerFacts.HandleRefinesLive | src/ps2link.c:584-701 | the ten-slot table is a map from open descriptors to remaining entries: the least free one is taken, a full table and unknown descriptors give -1 and change nothing |
| ServerFacts.EntryReadsAs | src/ps2link.c:902-925 | a name up to 255 bytes is what the peer reads from the name field, whatever was in it before |
| ServerFacts.NoEntryReadsAs | src/ps2link.c:902-925 | without an entry mode, attributes, size and high size read as 0, and the times and the name are not stored |
| Peer.FakePs2link.ReceiveExact | tests/fake_ps2link.c:53-62 | success only with exactly the bytes asked for; when no call fails or is interrupted, success iff they are there, for all short receives |
| Peer.FakePs2link.SendExact | tests/fake_ps2link.c:63-72 | success only with exactly the data sent, else a front of it; always success when no call fails or is interrupted |
| Peer.FakePs2link.Request | tests/fake_ps2link.c:73-85 | on success header, payload and data together are one frame; always success when no call fails or is interrupted |
| Peer.FakePs2link.FakeOpen | tests/fake_ps2link.c:90-101 | through both ends: the result is the service's for this OPEN, and the client is in the state after it |
| Peer.FakePs2link.FakeClose | tests/fake_ps2link.c:102-112 | the same for CLOSE |
| Peer.FakePs2link.FakeRead | tests/fake_ps2link.c:113-128 | the same for READ, the data included |
| Peer.FakePs2link.FakeWrite | tests/fake_ps2link.c:129-140 | the same for WRITE |
| Peer.FakePs2link.ReadToEnd | tests/fake_ps2link.c:149-158 | the read loop brings the whole file, or -1 and nothing if the descriptor cannot be read |
| Peer.FakePs2link.LoadFile | tests/fake_ps2link.c:141-163 | end to end over both TCP directions cut anyhow, and for all short reads on the host: the file's exact contents, and all descriptors closed again |
| Peer.LoadsTheFile | tests/fake_ps2link.c:288 | an existing file opened to be read comes over whole and is left as it is; an empty one gives nothing |
| Peer.PingName | src/ps2link.c:44-50 | the name the client gives in its own DUMPREG command is the ping file for its own OPEN, with a slash in front or without |
| Peer.FakePs2link.DumpRegisters | tests/fake_ps2link.c:264-273 | answering DUMPREG sets the handshake's flag, leaves the host as it was, and fails only without a free descriptor |
| Peer.FakePs2link.AnswerHandshake | tests/fake_ps2link.c:264-273 | the client's own DUMPREG command, answered by the peer, sets the handshake's flag iff a descriptor was free (or it was set before), and leaves the host as it was |
| Handshake.AwaitAnswer | src/ps2link.c:175-192 | ends; succeeds iff the flag was seen, at the first turn that sees it, with the last clock reading minus the first; gives up only after the time or on a lost connection, and never goes on after one; takes exactly 5 ms a turn beside what readings and sleeps come late; commands are at least a second apart and at most ceil(timeout/1000); at every turn one was sent less than a second before; at most timeout/5 + 1 turns |
| Handshake.FewSends | src/ps2link.c:182-187 | sends a second apart inside the time allowed are at most as many as seconds have begun |
| Handshake.ServeKeepsInv | src/ps2link.c:470-481 | a program's own requests neither fake nor break a handshake |
| Handshake.SuccessIsARoundTrip | src/ps2link.c:175-192 | in every run with lost, doubled, delayed and overlapping commands: success only after a command that was sent reached the peer and was worked on through OPEN and the CLOSE of what OPEN returned |
| Handshake.ASuccess | src/ps2link.c:175-192 | a handshake can succeed with every server that has a free descriptor: after one command, sent, delivered, and worked on through OPEN and CLOSE |
| NetFs.CommandRoundTrip | src/ps2netfs.c:41-160 | a server that reads the packets field by field gets exactly the command issued, and the next one starts after it |
| NetFs.CommandLayout | src/ps2netfs.c:41-160 | every command packet, byte offset by byte offset: the number, the length field, and each argument in its place |
| NetFs.AnswerRoundTrip | src/ps2netfs.c:102-112 | the client takes exactly a server's answer off the stream, and refuses only more data than it asked for |
| NetFs.Client.CommandOpen | src/ps2netfs.c:41-64 | a path that does not fit is refused without a packet; else one packet and one answer, or -1 |
| NetFs.Client.CommandClose | src/ps2netfs.c:66-84 | one packet and one answer, or -1 |
| NetFs.Client.CommandRead | src/ps2netfs.c:86-114 | one packet, one answer and its data in the buffer; an oversized or cut-off answer gives -1 |
| NetFs.Client.CommandWrite | src/ps2netfs.c:116-138 | one packet with its data behind it and one answer, or -1 |
| NetFs.Client.CommandLseek | src/ps2netfs.c:140-160 | one packet and one answer, or -1 |
| FsClient.WriteOut | src/fsclient.c:123-127 | for all short local writes: the whole buffer in order; it fails iff a local write moved nothing |
| FsClient.PullAll | src/fsclient.c:116-130 | for all short reads: it succeeds iff every READ was answered with something and no local write failed; then the local file is exactly what the READ answers brought, `size` bytes of it |
| FsClient.CopyFrom | src/fsclient.c:96-138 | against any server: 0 iff the path fits, every command issued was answered and answered well, and no local call failed; then the local file is what the reads brought, `size` bytes; every way out closes each opened descriptor exactly once |
| FsClient.PushBuffer | src/fsclient.c:166-172 | the part a server does not take is sent again; it succeeds iff every WRITE was accepted in part, and then what was taken, in order, is the buffer |
| FsClient.PushAll | src/fsclient.c:160-175 | for all short reads and partial writes: it succeeds iff every WRITE was accepted in part and no local read failed; then what the server took is the front of the local file |
| FsClient.CopyTo | src/fsclient.c:140-183 | against any server: 0 iff the local length is not negative as an int, the path fits, every command issued was answered well, and no local call failed; then what the server says it took is the local file's first `size` bytes; the same clean-up |
| CopyFacts.HonestPulls | src/fsclient.c:116-130 | true READ answers bring the file's bytes in order, none twice and none left out |
| CopyFacts.HonestPushes | src/fsclient.c:160-175 | a file written by true WRITE answers holds exactly what they took |
| CopyFacts.FromGoesWell | src/fsclient.c:96-138 | however far a copy from an honest server got, every answer was a good one, if the source can be opened and its length is not negative as an int |
| CopyFacts.ToGoesWell | src/fsclient.c:140-183 | the same for a copy to an honest server that can make the destination |
| CopyFacts.CopyFromHonest | src/fsclient.c:96-138 | a copy that returns 0 has the source's first `size` bytes, the whole source iff it is shorter than 2 GB |
| CopyFacts.CopyToHonest | src/fsclient.c:140-183 | the remote file, truncated and written, is exactly what the server took |
| CopyFacts.CopyFromServer | src/fsclient.c:96-138 | result 0 and true answers make the local file the source's front, and the whole source iff it is shorter than 2 GB; against an honest server, with a local file that works, 0 iff the path fits, there is such a source, and its length is not negative as an int |
| CopyFacts.CopyToServer | src/fsclient.c:140-183 | result 0 and true answers make the remote file the local file's front, and the whole of it iff it is shorter than 2 GB; against an honest server, with a local file that works, 0 iff the path fits, the destination can be made, and the length is not negative as an int |
| CopyFacts.BigFileCopiedFrom | src/fsclient.c:103-132 | a file of 2^32 bytes: the copy returns 0 and is empty |
| CopyFacts.BigFileCopiedTo | src/fsclient.c:151-177 | a local file of 2^32 bytes: the copy returns 0 and the server has an empty file |
| ResetCheck.FewPolls | src/resetcheck.c:84-97 | at most ceil(timeout * 1000 / 150) polls |
| ResetCheck.PollTime | src/resetcheck.c:84-97 | poll number k begins exactly after the polls before it, 150 ms for each of them, and the drift of the clock readings |
| ResetCheck.RecoveryIsSeen | src/resetcheck.c:84-97 | a failed ping and a later good one that are due before the deadline are not missed |
| ResetCheck.OneMorePoll | src/resetcheck.c:86-95 | one flag is enough to know whether a loss came before a success |
| ResetCheck.Wait | src/resetcheck.c:96 | the next poll begins 150 ms after the last one has ended, and the drift between; at the deadline no later than that |
| ResetCheck.Observe | src/resetcheck.c:84-97 | the loop ends, and succeeds iff a poll failed and a later one worked, all of them begun before the deadline; the polls follow each other at exactly 150 ms, see the pings one by one, and go on until the deadline |
| ResetCheck.Check | src/resetcheck.c:55-103 | the exact commands run: one ping, then RESET once iff that was good, then only polls; each exit status iff its reason; with pings that fail and recover in time the status is 0 |
| Symbolize.EqualsIgnoreCase | tools/ps2symbolize.c:30-37 | true iff the names have the same length and the same letters up to case |
| Symbolize.CaseMeaning | tools/ps2symbolize.c:33 | two bytes agree up to case iff they are the same, or the two cases of one letter |
| Symbolize.FirstElfIsFirst | tools/ps2symbolize.c:98-103 | the module chosen is the first one whose name matches, none only if none does |
| Symbolize.Symbolizer.FindModule | tools/ps2symbolize.c:98-103 | the loop finds that module |
| Symbolize.Symbolizer.Resolve | tools/ps2symbolize.c:110-117 | one call and its answer: bytes are written only for a symbol, and an error is counted only for a failure |
| Symbolize.Symbolizer.AnnotateLine | tools/ps2symbolize.c:76-118 | the waiting exception and the calls go on as specified for the line's header, address and module; the bytes written are the line and, behind it, the annotation of the call that found a symbol; failed calls are counted exactly |
| Symbolize.Symbolizer.Annotate | tools/ps2symbolize.c:165-169 | over a whole log: the calls and the bytes written are those specified for the lines fgets reads; status 1 iff some call's answer was a failure |
| Symbolize.CallsAreRight | tools/ps2symbolize.c:85-110 | every call is for the processor of the latest header and the right file and address; calls and the waiting exception together are at most the header lines |
| ExceptionLines.ScanHexOfNumber | tools/ps2symbolize.c:89 | %x reads back every 32-bit number printed in base 16, in lower and upper case, with white space, 0x or 0X and leading zeros before it |
| ExceptionLines.OneMoreHexDigit | tools/ps2symbolize.c:89 | one more digit makes sixteen times the number and the digit |
| ExceptionLines.EpcLine | tools/ps2symbolize.c:88-89 | the address of a line is the number behind its first "EPC " |
| ExceptionLines.ModuleLine | tools/ps2symbolize.c:95-97 | the module of a line is the name between its quotes, up to 127 bytes, with the number behind "Relative EPC", whatever white space is between |
| ExceptionLines.NothingOnLine | tools/ps2symbolize.c:88-96 | a line without these words gives no address and no module |
| ExceptionLines.HeaderMeaning | tools/ps2symbolize.c:85-86 | a line is the IOP's header iff it has the IOP's words, else the EE's iff it has the EE's |
| ExceptionLines.CallsAreExactlyDue | tools/ps2symbolize.c:85-110 | over a whole log the calls are exactly those due: at the first line that settles the exception of the latest header, when there is a file for it; each once, in the order of the lines, none left out and none made up |
| Spelling.AnnotationsSpelled | tools/ps2symbolize.c:112-113 | the text of an annotation for either processor |
| Spelling.LogHeaders | tools/ps2symbolize.c:85-86 | the headers looked for |
| Spelling.LogFields | tools/ps2symbolize.c:88-96 | the words looked for |
| Spelling.ConsoleField | src/ps2link.c:88 | the field looked for |
| Spelling.PingFile | src/ps2link.c:44 | the ping file's name |
| Spelling.ExitStatuses | src/ps2link.h:9-14 | the exit statuses |
| LogFacts.SplitIsTheInput | tools/ps2symbolize.c:165 | fgets with its 8192-byte buffer drops and repeats nothing |
| LogFacts.ChunkEnds | tools/ps2symbolize.c:165 | a line as read has no newline inside, and ends in one unless it fills the buffer or is the last |
| LogFacts.OutputIsTheInput | tools/ps2symbolize.c:84 | what fputs makes of the lines is the input iff no byte of it is null |
| LogFacts.OriginalsAreTheLines | tools/ps2symbolize.c:84-118 | besides annotations exactly the lines are written, in order |
| LogFacts.OwnLinesIff | tools/ps2symbolize.c:84-113 | every annotation starts a line of the output iff every annotated line, as read, ends in a newline |
| LogFacts.AnnotationsCanBeDeleted | tools/ps2symbolize.c:84-113 | on the bytes of the output: when annotations start lines, they are whole lines, and deleting just these leaves the other writes |
| LogFacts.AnnotatedLogKeepsTheLog | tools/ps2symbolize.c:165-167 | for every log without a null: under that exact condition, deleting the annotation lines from the output gives the log back |
| LogFacts.CutOffLogIsLost | tools/ps2symbolize.c:84-113 | a log of one line with a header, an address and no newline: whatever the symbol, no deletion of output lines gives it back |

## Left out

- REMOVE, MKDIR, RMDIR and GETSTAT: their effect on the files and GETSTAT's attributes; they take a
  result from a script, and only their response packets are modelled.
- READDIR's conversion of `stat` and `localtime` fields: an entry carries its attribute bytes.
- `opendir` that fails after `stat` reported a directory, `closedir` that fails, and allocation that
  fails: assumed not to happen.
- Request packets shorter than their documented shape and path fields without a null: excluded by the
  peer's obligations (`ServerSpec.ShapedStream`), because the code reads what an earlier packet left
  in the buffer.
- Descriptors the client itself holds (its sockets, standard input and output): a request finds only
  descriptors that earlier requests opened.
- The `whence` values beyond 2 that some systems know: they are refused here.
- File permissions, symbolic links, files that others change while they are in use, and writes that
  fail with an error.
- Peer.FakePs2link.Deliver: the peer waits for each response, as its lock makes it do, so one
  exchange at a time is on the way; the pieces it comes in are arbitrary on both ends.
- Network.Connection.Receive: after a receive that failed nothing more arrives, as on a broken TCP
  connection; runs of interrupted calls are finite.
- Handshake.AwaitAnswer: the round trip time is not cut down to an int, and a sleep is not cut short by
  a signal; the same for the sleeps of MainLoop.OneTurn and ResetCheck.Wait.
- Handshake.SuccessIsARoundTrip: the peer asks for the ping file only to answer a DUMPREG command;
  a program that opens the ping file itself would complete a handshake.
- Bytes.StrtolOfPrinted: `long` has 64 bits.
- Symbolize.Symbolizer.Resolve: which tool is run, and that a symbol is cut at 1023 bytes; the symbol is
  the resolver's answer.
- FsClient.LocalFile: an open file is its contents and position; what an error on the local disk
  leaves behind is not modelled.
- CopyFacts: the honest server's open flags are read as the host's are (`fix_flags`); the ps2netfs
  server itself is not part of this model.
- Sockets, host names, the listening ports, thread creation and cancellation, `fork`, `exec` and
  `posix_spawn`, option parsing beyond the two checks above, usage texts and messages.
- The other command packets, the other ps2netfs commands, directory listings: more of the same
  pattern.
