# Glougloud: the WebSocket server library and two helpers, verified

Glougloud carries its own copy of libwebsock, a WebSocket server library written in C, and adds a send buffer and a
parser of Redis keyspace notifications. This project models the parts of that code that keep state and interpret
octets, and proves what they do. Where something is proved of fewer inputs than the code takes, the last section says
which.

The receive path is told three times, and the three are proved to agree:

1. `Connections`, `FrameLists`, `Frames`: the code's own form. Frame objects with a growing buffer, a header state and
   links to their neighbours; a connection that takes one octet at a time, recycles a frame after a control frame,
   strings fragments into a list, and reassembles and releases it.
2. `Receiving`: the same as a machine on values, one octet (`Step`) or one whole frame (`Receive`) at a time.
3. `Conformance` and `Clients`: what a client sent, without any machine. The data frames of a conversation are grouped
   into messages by their FIN flags, the pings are answered in order, and a few plain conditions say which frame
   sequences are accepted.

`Connections.Connection.HandleRecv` leads from 1 to 2, `Framing.RunFrames` from octets to frames,
`Conformance.ReceivesExactly` from 2 to 3, and `Service.Serve` states the whole: a new connection that is given the
octets of any messages, cut into any fragments, with pings and pongs anywhere, in reads of any size, delivers exactly
those messages and answers exactly those pings. `Framing.OpenRunReadsFrames` and `Framing.ClosedRunReadsFrames` tell
of octets that nobody promised to be frames what they are up to the one at which the connection begins to close.

When a connection is to close, the code leaves the loop over a buffer, drops the rest of that buffer and reads the next
one. The model follows it to the end of the first buffer that is so left. A refused header is another matter: it is
answered by a Close frame, but the loop is left only if the fields that the frame before has left over in the structure
make the code take the header for a whole frame. `Refusals` tells what happens then, and after which frames the answer
is one Close frame and no more.

Around it stand `Wire` (the frame format, printing and reading), `Rules` (invariants and closing), `Refusals`, `Utf8`
(the table automaton against the grammar of RFC 3629), `Sha1` (the streaming hash against the one-shot definition of
FIPS PUB 180-1), `Base64` (encoder and decoder), `Handshake` (the accept value), `SendBuf` (the bounded send buffer)
and `Notifications` (the `strtok` chain). `Bytes` holds what they share.

`Bitwise`, `KnownAnswers` and `KnownDigests` hold the definitions against something written down elsewhere. `Bitwise`
states exclusive or, AND, OR, NOT and the rotation on single binary digits and as numbers, and proves exclusive or and
AND to be Dafny's own operations on bit vectors. `KnownAnswers` and `KnownDigests` give results octet by octet: the
examples of section 5.7 of RFC 6455 and the echo of a normal Close, received as literal octets; the digest and the
accept value of section 1.3 of RFC 6455; the digest of "abc" of appendix A of FIPS PUB 180-1, with all eighty words of
the schedule and all eighty rounds; the event in the comment of glougloud/redis.c.

Octets are integers from 0 to 255; the fields of the C structures are integers bounded by their width, and sums that
wrap in the code wrap in the model where that matters. Bitwise operations are defined on the bits of a number.

The code serves more than RFC 6455 allows, and is modelled as it is. Taking sections 5.2, 5.4, 5.5 and 8.1 for what
the standard asks of a client, `Clients.ServedButNotConforming` proves that a client that is served and does not
conform does at least one of four things: it writes a payload length in more octets than needed (or of 2^63 and more),
it begins a fragmented message with a reserved opcode, it sends a text with an error after a NUL, or it has sent a part
of a text that cannot become valid any more, of which the code takes no notice before the text ends. A concrete client
is given for each. The server itself answers a ping in the length form of the ping, be it the shortest or not
(`Rules.PongIsSent`).

The comment above `base64_decode` that speaks of three appended `=` signs is not followed; the code appends four.

## Model

| member | source | states |
|---|---|---|
| `Service.Serve` | contrib/libwebsock/src/websock.c:208-309 | A new connection object, whether or not a Close has been sent on it, fed the octets of any valid messages in any fragments with pings and pongs anywhere, cut into any pieces, has delivered exactly those messages in order, sent one PONG per PING in order, and kept nothing |
| `Service.Session` | contrib/libwebsock/src/websock.c:208-309 | Any octets in any pieces, read until nothing comes any more or until the end of the 1024-octet buffer in which the loop is left to close, and then a shutdown: n octets have been read, output, messages and close information are those of the machine on them, and no frame and no buffer stays allocated |
| `KnownAnswers.HelloIsDelivered` | contrib/libwebsock/src/websock.c:224-303 | The octets 81 85 37 FA 21 3D 7F 9F 4D 51 58 of section 5.7 of RFC 6455: the text "Hello" is delivered and nothing is sent |
| `KnownAnswers.BinaryIsDelivered` | contrib/libwebsock/src/websock.c:323-378 | The same with 82: five octets 48 65 6C 6C 6F |
| `KnownAnswers.FragmentsAreDelivered` | contrib/libwebsock/src/websock.c:268-302 | "Hel" and "lo" in two masked frames: one text "Hello" |
| `KnownAnswers.HelloIsEchoed` | contrib/libwebsock/src/default_callbacks.c:58-93 | The same octets as a PING: answered by 8A 05 48 65 6C 6C 6F |
| `KnownAnswers.NoTextIsRefused` | contrib/libwebsock/src/websock.c:357-364 | The octets 81 81 00 00 00 00 FF: nothing is delivered, the answer is 88 02 03 EF |
| `Clients.ServesClients` | contrib/libwebsock/src/websock.c:208-309 | What `Service.Serve` says, of the machine on values: for every client and every interleaving, exactly its messages and a PONG for each PING |
| `Conformance.ReceivesExactly` | contrib/libwebsock/src/websock.c:252-306 | A frame sequence leaves the connection open if and only if control frames are short and unfragmented pings or pongs, opcodes stand exactly where messages begin, final frames have known opcodes and texts are valid; then messages, PONGs and the fragments in progress are those read off the sequence |
| `Clients.ConformingIsAccepted` | contrib/libwebsock/src/websock.c:252-303 | Every client that follows the rules on opcodes, fragments, control frames and texts of sections 5.2, 5.4, 5.5 and 8.1 of RFC 6455 is served, its texts being UTF-8 as a whole and what it has sent of an unfinished one the beginning of UTF-8, in whatever form it writes its lengths |
| `Clients.ServedButNotConforming` | contrib/libwebsock/src/websock.c:252-303 | A client that is served breaks these sections, the payload length of 5.2 included, if and only if it writes a length in more octets than needed or of 2^63 and more, begins a fragmented message with an opcode from 3 to 7, sends a text with an error behind a NUL, or has sent a part of a text that the automaton has refused |
| `Clients.ReservedOpcodeIsDelivered` | contrib/libwebsock/src/websock.c:284-302 | Two frames that begin a message with opcode 3 and are delivered |
| `Clients.ErrorAfterNulIsDelivered` | contrib/libwebsock/src/websock.c:357-364 | A text that is not UTF-8 and is delivered, its error standing behind a NUL |
| `Clients.LongLengthIsDelivered` | contrib/libwebsock/src/frames.c:125-151 | The octets 81 FE 00 00 00 00 00 00: an empty text whose length is not in the shortest form, and delivered |
| `Clients.HopelessTextIsAwaited` | contrib/libwebsock/src/websock.c:284-302 | A first fragment that no UTF-8 text begins with, after which the connection waits for more |
| `Framing.RunFrame` | contrib/libwebsock/src/websock.c:225-303 | The octets of a frame, one at a time, do what the whole frame does |
| `Framing.RunFrames` | contrib/libwebsock/src/websock.c:224-307 | The octets of any frames do what the frames do, one after the other |
| `Framing.OpenRunReadsFrames` | contrib/libwebsock/src/websock.c:224-307 | Whatever octets leave the connection open are the serialisation of some valid frames and a proper part of another, and have done exactly what those frames do |
| `Framing.ClosedRunReadsFrames` | contrib/libwebsock/src/websock.c:224-307 | At the octet at which a connection begins to close it has read frames that were received, and then a refused three-octet header or the frame that closes |
| `Framing.ChunksDoNotMatter` | contrib/libwebsock/src/websock.c:222-224 | As long as no loop over a buffer is left to close, state, messages and output depend on the octets alone, not on how they are cut into reads |
| `Refusals.RefusedAfterFrames` | contrib/libwebsock/src/websock.c:238-250 | After any accepted frames, a refused header is answered by one Close frame alone, whatever follows in the buffer, and nothing happens outside of the frame's own buffer, if and only if nothing follows or the last frame was a fragment or a short control frame of at most one octet, and it was no short PING of at most one octet and no short PONG of one |
| `Refusals.GoesOn` | contrib/libwebsock/src/websock.c:238-250 | As long as less has arrived than the fields left over ask for, which is for ever at the start of a message, every octet from the third on is answered by one more Close frame |
| `Refusals.OverrunsExactly` | contrib/libwebsock/src/default_callbacks.c:58-65 | The callback, run on the fields that a control frame has left over, reads and writes inside of the buffer if and only if that was no PING in the short form and no PONG in the short form with a payload |
| `Refusals.FourCloses` | contrib/libwebsock/src/websock.c:238-245 | The octets F1 80 00 00 00 00: four Close frames |
| `Refusals.PingThenRefused` | contrib/libwebsock/src/websock.c:238-250 | The octets 89 80 00 00 00 00 F0 80, after which nothing is promised for the next |
| `Rules.RunKeepsFragments` | contrib/libwebsock/src/websock.c:252-303 | After every octet of every run, the frames held are non-final data frames, the first with a non-zero opcode and the others with opcode 0 |
| `Rules.ClosesWithLastWords` | contrib/libwebsock/src/websock.c:252-321 | Whichever frame closes a connection, the frames before it were accepted and it is not; the output is the PONGs of those frames and then the echo of a Close (nothing, if a Close had been sent before), or for a failure one Close frame with 1002 or 1007, even if a Close had been sent before |
| `Rules.CloseIsEchoed` | contrib/libwebsock/src/default_callbacks.c:67-88 | The echo of a short-form Close has the same length and reason; its code is 1002 for 0 to 999, 1004 to 1006 and 1012 to 2999, and for every other 1007 if the reason up to its first NUL is not UTF-8, else the client's own; the stored reason has 124 octets and is NUL-terminated |
| `KnownAnswers.CloseIsEchoed` | contrib/libwebsock/src/default_callbacks.c:67-88 | The octets 88 82 37 FA 21 3D 34 12, the normal Close 1000: answered by 88 02 03 E8 |
| `Rules.LongControlIsRefused` | contrib/libwebsock/src/default_callbacks.c:53-56 | A control frame of more than 125 octets, or without FIN, is answered by the Close frame 88 02 03 EA whichever it is, and the connection is to close |
| `Rules.PongIsSent` | contrib/libwebsock/src/default_callbacks.c:90-93 | The answer to a PING is the FIN PONG with the unmasked payload and the length form of the PING, and nothing else changes; it is octet for octet what the sending function makes if and only if the PING is in the short form |
| `Receiving.StoredReasonText` | contrib/libwebsock/src/websock.c:54-61 | The zero-filled reason buffer begins with the reason, holds a NUL, and reads up to it as the reason does |
| `Wire.ParseSerialize` | contrib/libwebsock/src/frames.c:112-160 | Reading the octets of any valid frame gives back the frame, and its size |
| `Wire.SerializeParse` | contrib/libwebsock/src/frames.c:112-160 | Whatever octets read as a frame are the serialisation of what was read |
| `Wire.IncompleteBeforeEnd` | contrib/libwebsock/src/websock.c:248-250 | No proper prefix of a frame is taken for a frame |
| `Wire.CompletesOnLastOctet` | contrib/libwebsock/src/websock.c:248-250 | The octet that completes a frame is its last: the size never overshoots |
| `Wire.SentReadsBack` | contrib/libwebsock/src/websock.c:110-154 | What is sent, masked with any key and read by the header machine, has the flag, opcode, length and unmasked payload that were sent |
| `Wire.MinimalIsShortest` | contrib/libwebsock/src/websock.c:121-136 | The length form that is sent can hold the length, and none that can is shorter |
| `Wire.ServerFrameIsSent` | contrib/libwebsock/src/websock.c:121-151 | A frame unmasked in place is what the sending function would have made, if its length form is the shortest |
| `KnownAnswers.SentHello` | contrib/libwebsock/src/websock.c:110-154 | "Hello" is sent as the octets of section 5.7 of RFC 6455, as a text and as a PONG |
| `KnownAnswers.LongerHeaders` | contrib/libwebsock/src/websock.c:121-151 | 256 octets are sent after 82 7E 01 00, 65536 octets after 82 7F 00 00 00 00 00 01 00 00 |
| `Wire.UnmaskTwice` | contrib/libwebsock/src/websock.c:346-351 | Masking with the same key twice, from index 0, is the identity |
| `Bytes.XorCancel` | contrib/libwebsock/src/websock.c:348-349 | Exclusive or with the same octet twice is the identity |
| `Bitwise.XorBits` | contrib/libwebsock/src/websock.c:348-349 | The i-th binary digit of an exclusive or is 0 exactly where the digits of both octets agree, by quotient and remainder alone |
| `Bitwise.XorOctets` | contrib/libwebsock/src/websock.c:348-349 | Exclusive or of octets is the `^` of bit vectors |
| `Bytes.FromBigEndianOf` | contrib/libwebsock/src/frames.c:133-142 | Reading a number from its big-endian octets gives it back, if it fits |
| `Bytes.BigEndianOf` | contrib/libwebsock/src/websock.c:142-150 | The big-endian octets of the number that octets stand for are those octets, so that lengths are written as they are read |
| `Connections.Connection.HandleRecv` | contrib/libwebsock/src/websock.c:208-309 | The receive loop over the heap takes the connection where the octet machine goes on the first n octets, in messages, output, close information, list and partial frame; n is all of them, or the end of the first 1024-octet buffer in which the loop is left to close |
| `Connections.Connection.ReceiveBuffer` | contrib/libwebsock/src/websock.c:224-307 | The same for one whole buffer, of which the rest is dropped when the loop is left |
| `Connections.Connection.ReceiveOctet` | contrib/libwebsock/src/websock.c:225-306 | The same for one octet, and whether the loop over the buffer is left |
| `Connections.Connection.RefuseHeader` | contrib/libwebsock/src/websock.c:239-250 | A refused header is answered by a Close frame, and the loop goes on unless the fields that the frame before has left over say that a frame is complete |
| `Connections.Connection.FallThrough` | contrib/libwebsock/src/websock.c:252-306 | A refused header taken for a frame: after a fragment one more frame is linked, after a control frame the callback is run again on what is in the buffer; the list can still be released |
| `Connections.Connection.CallbackAgain` | contrib/libwebsock/src/default_callbacks.c:53-95 | What the callback sends then: for a PING the buffer up to the end of the payload left over, unmasked with the old key, as a PONG |
| `Connections.Connection.LinkAnother` | contrib/libwebsock/src/websock.c:268-274 | A frame linked after one that holds nothing leaves a list that can be released |
| `Connections.Connection.NeedFrame` | contrib/libwebsock/src/websock.c:225-231 | Allocating the first frame changes nothing that the connection stands for |
| `Connections.Connection.TakeOctet` | contrib/libwebsock/src/websock.c:233-246 | The frame holds its octets and the new one, a buffer that was outgrown being released; -1 exactly for a refused header, now or before, and then with the fields left over as they were; 0 exactly while the header is incomplete; the rest of the list is as it was |
| `Connections.Connection.CompleteFrame` | contrib/libwebsock/src/websock.c:252-303 | What a complete frame does, in all the cases of flag, FIN and opcode, is what the frame machine does |
| `Connections.Connection.AddFragment` | contrib/libwebsock/src/websock.c:268-302 | The complete frame stays, as the last of a longer consistent list; the flag is set and a new frame is begun |
| `Connections.Connection.FrameList` | contrib/libwebsock/src/websock.c:252-303 | While the connection is open: the list has no repetition, the frame being received is last, all others are complete, and the fragment flag is set exactly when it has a predecessor |
| `Connections.Connection.FrameAct` | contrib/libwebsock/src/frames.c:77-96 | Control, message and unknown opcodes, each as the frame machine has it |
| `Connections.Connection.EndMessage` | contrib/libwebsock/src/frames.c:86-91 | The message is delivered or refused, every frame and its buffer have been released and none is left |
| `Connections.Connection.DispatchMessage` | contrib/libwebsock/src/websock.c:323-378 | The first fragment's opcode with the joined unmasked payloads is delivered, or refused with 1007 when it is a text that is not UTF-8 up to its first NUL; all frames are released in either case |
| `Connections.Connection.HandleControlFrame` | contrib/libwebsock/src/frames.c:45-60 | A control frame is answered and its object recycled in place, with the message in progress and its links kept |
| `Connections.Connection.ControlCallback` | contrib/libwebsock/src/default_callbacks.c:46-101 | Output, close information and the decision to close are those of the machine, for every length and every opcode, those that are no control opcodes included |
| `Connections.Connection.AnswerClose` | contrib/libwebsock/src/default_callbacks.c:67-89 | The Close information is remembered; the corrected frame is echoed unless a Close has been sent before |
| `Connections.Connection.CheckClose` | contrib/libwebsock/src/default_callbacks.c:71-82 | The frame's code is replaced exactly when code or reason is refused, its reason kept |
| `Connections.Connection.AnswerPing` | contrib/libwebsock/src/default_callbacks.c:90-93 | The frame with its first octet replaced is a FIN PONG with the same payload |
| `Connections.Connection.PopulateCloseInfo` | contrib/libwebsock/src/websock.c:37-63 | Code and zero-filled reason, or nothing for a payload under two octets |
| `Connections.Connection.FailConnection` | contrib/libwebsock/src/websock.c:311-321 | One Close frame with the code is output, and the connection is to close |
| `Connections.Connection.SendFragment` | contrib/libwebsock/src/websock.c:110-154 | The output grows by the shortest-form unmasked frame of the data |
| `Connections.Connection.FreeAllFrames` | contrib/libwebsock/src/frames.c:25-43 | No frame and no buffer of the connection is left allocated, whether it was open or to close |
| `FrameLists.Acyclic` | contrib/libwebsock/src/websock.c:268-274 | Frames whose two links agree form no cycle: no frame stands in the list twice |
| `FrameLists.Extend` | contrib/libwebsock/src/websock.c:268-274 | Linking a new frame keeps the list consistent and the earlier frames as they were |
| `FrameLists.Measure` | contrib/libwebsock/src/websock.c:336-343 | The backward walk ends at the first frame with the sum of all lengths |
| `FrameLists.JoinedLength` | contrib/libwebsock/src/websock.c:336-353 | That sum is the length of the joined payloads |
| `FrameLists.Reassemble` | contrib/libwebsock/src/websock.c:344-353 | The forward walk fills the allocation exactly: the payloads, each unmasked with its own key from index 0, and the terminator |
| `FrameLists.CleanupFrames` | contrib/libwebsock/src/frames.c:62-75 | Every frame of the list and its buffer are released, each while it is allocated and so once, and nothing else is |
| `FrameLists.FreeAllFrames` | contrib/libwebsock/src/frames.c:25-43 | The same, starting from the last frame |
| `Frames.HeaderTiming` | contrib/libwebsock/src/frames.c:98-166 | At every prefix of a frame the header is recognised if and only if at least 6, 8 or 14 octets, as the form asks, have arrived |
| `Frames.OneTransition` | contrib/libwebsock/src/frames.c:104-164 | One octet moves the header state by at most one, never back |
| `Frames.Frame.ReadHeader` | contrib/libwebsock/src/frames.c:98-166 | After each octet the state and the fields are what the octets so far say; -1 exactly for a refused header |
| `Frames.Frame.ReadFirstOctets` | contrib/libwebsock/src/frames.c:112-124 | Refused exactly for reserved bits or a missing mask bit; flag, opcode and short length otherwise |
| `Frames.Frame.ReadLength` | contrib/libwebsock/src/frames.c:125-151 | The length is known exactly when its octets have arrived, in each form |
| `Frames.Frame.LoadMask` | contrib/libwebsock/src/frames.c:152-161 | The key is loaded exactly when the header is complete |
| `Frames.Frame.Append` | contrib/libwebsock/src/websock.c:233-237 | Across every doubling the buffer holds the octets since the frame began, with the new one last |
| `Frames.Frame.TakeOctet` | contrib/libwebsock/src/websock.c:233-246 | The same with the header read along |
| `Frames.Frame.UnmaskInto` | contrib/libwebsock/src/websock.c:346-351 | The frame's unmasked payload follows what the message buffer held before |
| `Frames.UnmaskLeft` | contrib/libwebsock/src/default_callbacks.c:59-63 | Unmasking while shifting four octets left, in one array, gives the unmasking of the old contents: no octet is overwritten before it is read |
| `Frames.Frame.Servify` | contrib/libwebsock/src/default_callbacks.c:58-65 | A client's frame becomes the server's frame with the same flag, opcode, length form and unmasked payload, in place |
| `Frames.Frame.ServifyAgain` | contrib/libwebsock/src/default_callbacks.c:58-65 | The same loop on fields left over: what it leaves in the buffer up to the end of the payload |
| `Frames.Frame.ReplaceCode` | contrib/libwebsock/src/default_callbacks.c:76-81 | Two octets are replaced, and the result is the frame with the new code and the old reason |
| `Utf8.AcceptsGrammar` | contrib/libwebsock/src/utf.c:10-38 | For every octet string, the automaton ends in ACCEPT if and only if the grammar of section 4 of RFC 3629 derives it |
| `Utf8.ValidateUtf8Sequence` | contrib/libwebsock/src/util.c:61-73 | True if and only if the octets before the first NUL are derivable |
| `Utf8.Decoder.Decode` | contrib/libwebsock/src/utf.c:27-38 | State and code point after one octet are those of the table |
| `Utf8.RejectIsAbsorbing` | contrib/libwebsock/src/utf.c:20-24 | REJECT is never left |
| `Utf8.RefusedPrefix` | contrib/libwebsock/src/utf.c:27-38 | A string with a refused prefix is not UTF-8 |
| `Utf8.RefusedAtOnce` | contrib/libwebsock/src/utf.c:27-38 | A string can be completed to a valid one if and only if the automaton has not refused it: errors are seen at once |
| `Utf8.DecodesEncoding` | contrib/libwebsock/src/utf.c:27-38 | For all scalar values, the code points seen at ACCEPT over their encoding are those values in order, and the end is ACCEPT |
| `Utf8.BetweenCharacters` | contrib/libwebsock/src/utf.c:27-38 | Inside a character the automaton is neither at ACCEPT nor at REJECT |
| `Utf8.EncodesDecoding` | contrib/libwebsock/src/utf.c:27-38 | Whatever string is accepted is the encoding of the scalar values seen |
| `Utf8.UpToNulStaysValid` | contrib/libwebsock/src/util.c:67-69 | Cutting a valid string at its first NUL leaves it valid |
| `KnownAnswers.ThreeCharacters` | contrib/libwebsock/src/utf.c:10-38 | Nine octets that are three Japanese characters, and the code points seen |
| `KnownAnswers.RefusedOctets` | contrib/libwebsock/src/utf.c:10-38 | C0 80, a surrogate, a code point above 10FFFF and a lone continuation octet are refused whatever follows |
| `Sha1.DigestOfPieces` | contrib/libwebsock/src/sha1.c:143-185 | However a message under 2^61 octets is cut into calls, the result is its digest by sections 4 to 7 of FIPS PUB 180-1 |
| `Sha1.Context.constructor` | contrib/libwebsock/src/sha1.c:71-85 | An absorbing context that has taken nothing |
| `Sha1.Context.Input` | contrib/libwebsock/src/sha1.c:143-185 | The message is taken after what was taken before; empty input changes nothing; input after the result, or too much, corrupts |
| `Sha1.Context.Take` | contrib/libwebsock/src/sha1.c:160-181 | One octet: the digest stays the fold over the full blocks, the block the rest, the counters the bit length |
| `Sha1.Context.Count` | contrib/libwebsock/src/sha1.c:163-176 | The two 32-bit halves are eight times the octets taken; corrupted exactly at 2^61 |
| `Sha1.Context.LoadWords` | contrib/libwebsock/src/sha1.c:224-230 | The first sixteen words are those of the standard's schedule |
| `Sha1.Context.ExtendWords` | contrib/libwebsock/src/sha1.c:232-235 | All eighty words are |
| `Sha1.Context.ProcessMessageBlock` | contrib/libwebsock/src/sha1.c:207-301 | Four loops of twenty rounds are the standard's eighty-round compression of the block |
| `Sha1.Context.PadMessage` | contrib/libwebsock/src/sha1.c:326-371 | In both cases, one block or two, the digest becomes that of the padded message |
| `Sha1.Context.PutLength` | contrib/libwebsock/src/sha1.c:358-368 | The last eight octets are the bit length, big-endian |
| `Sha1.Context.Result` | contrib/libwebsock/src/sha1.c:104-119 | Fails exactly when corrupted; the digest of all that was taken, once computed never changed |
| `Sha1.AssembledIsBigEndian` | contrib/libwebsock/src/sha1.c:226-229 | Shifting and or-ing four octets gives the big-endian word |
| `KnownDigests.DigestOfAbc` | contrib/libwebsock/src/sha1.c:207-301 | The digest of "abc" is A9993E36 4706816A BA3E2571 7850C26C 9CD0D89D, as in appendix A of FIPS PUB 180-1, by way of every word of the schedule and every round as literals |
| `Bitwise.RotationIs` | contrib/libwebsock/src/sha1.c:46-48 | Rotating x by n from 1 to 31 gives x % 2^(32-n) * 2^n + x / 2^(32-n): no bit is lost |
| `Bitwise.AndBits` | contrib/libwebsock/src/sha1.c:243-273 | A binary digit of `&` is 1 exactly where both are |
| `Bitwise.OrBits` | contrib/libwebsock/src/sha1.c:243-273 | A binary digit of OR is 0 exactly where both are |
| `Bitwise.Xor3Bits` | contrib/libwebsock/src/sha1.c:255-279 | A binary digit of the exclusive or of three words is the parity of the three |
| `Bitwise.WordNotBits` | contrib/libwebsock/src/sha1.c:246 | A binary digit of `~` is 1 exactly where the word has 0 |
| `KnownDigests.FunctionIs` | contrib/libwebsock/src/sha1.c:243-283 | The function of each twenty rounds as a sum: what is chosen, the parity and the majority, from what `&` gives |
| `Base64.RoundTrip` | contrib/libwebsock/src/base64.c:168-216 | For every octet string, its encoding decodes to it, with the pads and with them stripped |
| `Base64.WrittenRoundTrip` | contrib/libwebsock/src/base64.c:45-78 | The encoding holds no NUL, so that what is written reads back as a C string |
| `Base64.Encode` | contrib/libwebsock/src/base64.c:45-78 | Wherever the room check applies, 1 with encoding and NUL in the target if both fit, else 0 with the target untouched |
| `Base64.EncodeTriple` | contrib/libwebsock/src/base64.c:19-34 | The four digits of the 24-bit value, most significant first, although written last first |
| `Base64.EncodedIs` | contrib/libwebsock/src/base64.c:45-78 | Every character of an encoding, given by the octets of the source and that table: six bits each, and pads where the source has ended |
| `Base64.CharsAreTheTable` | contrib/libwebsock/src/base64.c:8-34 | A sextet is written as the character at its place in table 1 of RFC 3548 |
| `Base64.ValuesAreTheTable` | contrib/libwebsock/src/base64.c:86-99 | A character has the value v if and only if it stands at place v of that table |
| `KnownAnswers.PlusAndSlash` | contrib/libwebsock/src/base64.c:45-78 | The octets FB FF are written "+/8=" and read back from it |
| `Base64.RoomCheckIsExact` | contrib/libwebsock/src/base64.c:47-49 | In wrapping 64-bit arithmetic on both sides, for every source and target: the room check is right if and only if the target has room for one octet, and either the encoded length fits 64 bits or the target is no longer than what it wraps to |
| `Base64.NoRoomIsOverlooked` | contrib/libwebsock/src/base64.c:48-49 | A source of one octet and a target of length 0: the check passes, though five octets are needed |
| `Base64.Decode` | contrib/libwebsock/src/base64.c:168-216 | The octets of the significant characters of the source before its NUL, or -1 when they do not fit; the target beyond them is untouched |
| `Base64.NextQuad` | contrib/libwebsock/src/base64.c:187-195 | Four significant characters are found before the end; if all are of the alphabet, the four appended pads are still unread |
| `Base64.OthersDoNotMatter` | contrib/libwebsock/src/base64.c:187-195 | Line breaks and all other characters outside of the alphabet change nothing in what a text decodes to, wherever they stand |
| `Base64.CheckQuad` | contrib/libwebsock/src/base64.c:113-137 | Refused exactly when a pad stands before a character of the alphabet or a stranger is among them |
| `Base64.DecodeTriple` | contrib/libwebsock/src/base64.c:108-158 | The octets that the quadruple stands for, and how many |
| `Handshake.AcceptValue` | contrib/libwebsock/src/websock.c:425-438 | For every key that fits, the buffer holds the Base64 of the SHA-1 of key and GUID, NUL-terminated (section 4.2.2 of RFC 6455) |
| `Handshake.AcceptShape` | contrib/libwebsock/src/websock.c:437-438 | The value always has 28 characters and ends in a pad |
| `Handshake.PrintedReadsBack` | contrib/libwebsock/src/websock.c:432-436 | Printing the five words in hexadecimal and reading pairs back gives the twenty octets of the digest |
| `KnownAnswers.AcceptOfDigest` | contrib/libwebsock/src/websock.c:432-438 | The digest of section 1.3 of RFC 6455 gives s3pPLMBiTxaQ9kYGzzhZRbK+xOo= |
| `KnownAnswers.GidIs` | contrib/libwebsock/src/websock.c:392 | The 36 characters of the GUID |
| `KnownAnswers.HexDigitsAre` | contrib/libwebsock/src/websock.c:432-436 | What the sixteen digits are, and that reading inverts them |
| `SendBuf.RunConserves` | libsendbuf/libsendbuf.c:79-158 | For buffers under 2^30 octets, over every run and every sender: what was sent followed by what is pending is the accepted tokens in order; the positions stay in the buffer; regions handed out do not overlap |
| `SendBuf.SafeSizes` | libsendbuf/libsendbuf.c:79-143 | Every run stays in the buffer if and only if twice its size is below 2^31 |
| `SendBuf.Overflow` | libsendbuf/libsendbuf.c:81-87 | For every larger buffer, two tokens of its size overflow the sum, so that the second is put behind the end |
| `SendBuf.ComparisonIsExact` | libsendbuf/libsendbuf.c:81 | The comparison on wrapping ints tells whether the token makes a flush necessary, if and only if position and size add up to less than 2^31 |
| `SendBuf.NoFlushNeeded` | libsendbuf/libsendbuf.c:82-90 | If position and size add up to less than the size of the buffer, the token is accepted whatever the sender answers, nothing is sent and nothing moves but the end of what is pending |
| `SendBuf.FlushNeeded` | libsendbuf/libsendbuf.c:82-84 | If they add up to the size of the buffer or more, the token is accepted if and only if the buffer is empty or the sender takes all that is pending, and goes to the front of the buffer then |
| `SendBuf.Buffer.MakeRoom` | libsendbuf/libsendbuf.c:82-84 | The flush that a token needs: skipped exactly when position and size add up to less than the size of the buffer, failed exactly when the sender does not take all that is pending |
| `SendBuf.StepKeeps` | libsendbuf/libsendbuf.c:79-143 | One step stays in the buffer, with regions apart, if and only if its sum fits an int, and accepts exactly its token or nothing |
| `SendBuf.Buffer.Flush` | libsendbuf/libsendbuf.c:118-143 | What the sender takes leaves from the front; 0 exactly when the buffer is empty afterwards |
| `SendBuf.Buffer.Append` | libsendbuf/libsendbuf.c:79-90 | The token is added whole, or refused exactly when the flush it needs does not finish. On positions: with room it returns the size for every sender, with nothing sent and the token behind what was pending; without room it returns -1 if the sender takes less than is pending |
| `SendBuf.Buffer.GetToken` | libsendbuf/libsendbuf.c:97-110 | The region handed out lies behind everything pending and inside the buffer. On positions: with room it is handed out for every sender and nothing is sent; without room it is refused if the sender takes less than is pending |
| `SendBuf.Buffer.GetTokenAndFill` | libsendbuf/libsendbuf.c:97-110 | A region filled by its owner is a token accepted |
| `SendBuf.Buffer.CbTimer` | libsendbuf/libsendbuf.c:150-158 | The timer is a flush |
| `Notifications.ParsesExactly` | glougloud/redis.c:150-165 | A printed event is in the parser's domain and read back if and only if its type is not empty and holds no `@`, its op is not empty, both are under 64 octets and the number is an int; colons and underscores in the op do no harm |
| `Notifications.ChainInverts` | glougloud/redis.c:151-160 | The chain of tokens alone gives back what was printed if and only if the type is not empty and holds no `@`, and the op is not empty |
| `Notifications.PrintedIsParsable` | glougloud/redis.c:150-165 | A printed event that the chain gives back is in the parser's domain if and only if its parts are under 64 octets and its number is an int |
| `Notifications.ParseElement` | glougloud/redis.c:150-165 | Cutting the string in place with `strtok` gives the parts of the chain on values, or the code of the step that fails |
| `Notifications.ChainEnds` | glougloud/redis.c:151-161 | Which refusal comes when: -3 for a type with no `@`, -4 for a number below 0, -5 with nothing behind the number, -6 with no colon |
| `Notifications.LeadingDelimiters` | glougloud/redis.c:151-160 | Delimiters in front of a token are skipped |
| `KnownAnswers.EventIsParsed` | glougloud/redis.c:150-165 | `__keyevent@0__:sadd` gives keyevent, 0 and sadd |
| `Notifications.ParseNotification` | glougloud/redis.c:113-178 | The number of elements with every part found where it stands, or the code of the refusal; of four strings the first is the type, the second the pattern and the last the target, the third being cut into event type, number and op |
| `Notifications.Tokenizer.Next` | glougloud/redis.c:151-160 | One call of `strtok`: the next token, cut by a NUL, and the hidden position behind it |
| `Notifications.AtoiDecimal` | glougloud/redis.c:156 | The value that `atoi` reads from a printed number, where it is an int, is that number |
| `KnownAnswers.NumbersAreRead` | glougloud/redis.c:156 | Blanks, a sign and what follows the digits: " -12a" is -12, "+7 8" is 7, "x1" is 0 |

## Left out

- `Connections.Connection.HandleRecv`: the buffers after the one in which the loop is left to close. The `break` at contrib/libwebsock/src/websock.c:304 drops the rest of one 1024-octet buffer only; the code reads the next ones, and can send further Close frames and deliver further messages. The model stops at the end of that buffer and says where that is.
- `Connections.Connection.ReceiveOctet`: the octet at which a refused header makes the control callback reach outside of the frame's buffer, as in 89 80 00 00 00 00 F0 80 00; `AllFit` excludes it, the machine on values says nothing about the code there, and `Refusals.RefusedAfterFrames` and `Refusals.OverrunsExactly` say exactly when it comes.
- Frames of more than 2^31 octets, for which the 32-bit indices and buffer sizes of the code wrap; the loop index of line 347 is as wide. `AllFit`, `FramesFit` and `MAX_FRAME` say so.
- `Connections.Connection.SendFragment`: data shorter than 2^32 - 10 octets, since the code keeps the size of the frame in 32 bits.
- Allocation failure, and what the application's own callbacks do: delivering a message is appending it to a record, output likewise. The flag that tells whether the application has sent a Close does not change during a run.
- The state flags are separate booleans, one for each bit.
- libevent, sockets, TLS, signals, accepting and shutting down, and the HTTP header text: the key of a handshake is given.
- `Handshake.AcceptValue`: the key and the GUID fit the 1024-octet buffer; a longer key is not cut by the code.
- `Bytes.BigEndianOf`: the shifts and masks of contrib/libwebsock/src/util.c:26-59 as such, which only Windows uses; numbers are read and written big-endian.
- `Base64.Encode`: calls for which the room check is wrong, a target of length 0 above all; the code then writes out of bounds. `Base64.RoomCheckIsExact` says exactly which they are.
- `Sha1.Context.Result`: after too long a message or input behind the result there is no digest to speak of.
- `SendBuf.Buffer.Append`: tokens no larger than the buffer, as the code assumes, and for this and the other methods that take a token a sum that fits an int, without which the code writes out of bounds (`SendBuf.SafeSizes`); the sender is its answer, -1 or what it took of what it was given. Freeing and timer intervals are left out.
- `SendBuf.Buffer.GetToken`: when a region is granted the abstract state is stated of the octets that the region holds; filling it is the caller's part, which `SendBuf.Buffer.GetTokenAndFill` adds.
- `Notifications.ParseElement`: a first token exists and the parts are under 64 octets, since the code copies them without looking; the number, if there is one, is an int, without which `atoi` is not defined.
- `Notifications.ParseNotification`: what the outputs hold after a refusal.
- `FrameLists.CleanupFrames`: releasing is taking out of a record of allocated blocks; the memory itself is not modelled.
- `Service.Session`: of the shutdown, the release of the frames; the close information and the rest of the client's state are left out.
- The rest of glougloud and libglouglou: process start-up, Redis connections, visualisation, probes, and the unfinished packet and client code.
