# tp3 chat: a Dafny model of the codec, the read buffer and the two engines

tp3 is a small chat service. A server multiplexes TCP clients with `poll`, and
a terminal client relays lines typed by the user. Both sides speak a
delimiter-framed binary protocol:

- a frame opens with HEADING (0x01) and closes with END (0x04);
- a tag byte after HEADING selects the message;
- nothing is escaped.

This project models the core of that system and proves properties of the
model:

- **`bytes.dfy` (`Bytes`)**: bytes, `Option`, and the `Decoded` pair (message, cursor) that every decoder returns. `Find` models `std::find`.
- **`client_message.dfy` (`ClientMessage`)**: the server-to-client messages of `src/client/message.hpp`.
  - `invalid_name`, `users_list` and `text`.
  - Their decoders and the combined `decode`.
  - `encode`, as methods filling a fresh array.
  - The byte layout `Wire`, with round trips in both directions. The `users_list` decoder and encoder inside them are the corrected ones named under "## Findings".
- **`server_message.dfy` (`ServerMessage`)**: the client-to-server messages of `src/server/message.hpp` (`list_users`, `broadcast` and `unicast`).
  - Their `from` decoders and `parse`.
  - The layout `WireFormat` they accept, with round trips in both directions.
- **`read_buffer.dfy` (`ReadBuffers`)**: `read_buffer<size>` of `src/util/read_buffer.hpp`.
  - A class holding the bytes received.
  - Its `read`: append one receive, then the `while (!message)` frame loop.
  - The loop is modelled for any parser, heading and end token.
  - It is proved against the specification function `Extract`.
- **`framing.dfy` (`Framing`)**: the read buffer instantiated with the two decoders, as the client and the server call it.
  - An encoded message behind garbage is read whole.
  - A partial frame is kept, and an overlong frame is dropped.
- **`algorithm.dfy` (`Algorithm`)**: `swap_pop` of `src/util/algorithm.hpp`.
- **`boxed_array.dfy` (`BoxedArrays`)**: `boxed_array<uint8_t>` of `src/util/boxed_array.hpp`.
  - A class over a byte array.
  - Its constructors, `swap`, `operator==` and the `std::hash` specialisation.
- **`server.dfy` (`ServerEngine`)**: the server of `src/server/server.hpp`.
  - State: the clients, the poll entries (the listener first) and the catalogue from names to indices.
  - `get_client`, `list_users`, `accept`, `process_client`, and the body of `process` (disconnect handling and the walk over ready entries).
  - Two invariants are kept:
    - entry `k + 1` belongs to client `k`;
    - the catalogue maps exactly the clients' names to their indices.
- **`client.dfy` (`ClientEngine`)**: the client's command parser and the stdin side of its loop (`src/client/client.hpp`).

The model follows the code in these details, which a reader of the
protocol's tokens alone might not expect:

- The users list written by `encode` puts USER_SEP after every name, the last one included, so the last name is followed by USER_SEP and then END (`src/client/message.hpp:272-282`).
- `invalid_name` is three bytes, with no error code.
- There is no `invalid_target` error in the server-to-client direction.
- The server answers `list_users` only. `broadcast` and `unicast` are decoded and then ignored (`src/server/server.hpp:126-130`).
- `list_users` lists every client's name. There is no entry for anonymous clients.
- No decoder in `src/server/message.hpp` reads a rename request. The client's parser still produces one, `name;<name>`, so `ServerMessage.Message` has a `Name` variant that no decoder yields.

## Model

| member | source | states |
|---|---|---|
| Bytes.Find | src/util/read_buffer.hpp:74 | the first position at or after `from` holding the byte, or the end; no earlier position holds it |
| Bytes.FindIs | src/util/read_buffer.hpp:81 | any position holding the byte with none between `from` and it is what the search returns |
| Algorithm.SwapPopped | src/util/algorithm.hpp:10-23 | fewer than two elements: the container is emptied; otherwise it is one shorter, the last element moves into the vacated slot and every other slot keeps its element |
| Algorithm.SwapPop | src/util/algorithm.hpp:10-23 | clear, or `iter_swap` with the last unless the slot is the last, then `pop_back`, yields `SwapPopped` |
| Algorithm.SwapPopMultiset | src/util/algorithm.hpp:17-22 | the elements left are the original multiset less one copy of the removed element |
| Algorithm.SwapPopKeeps | src/util/algorithm.hpp:17-22 | a value is still present exactly when it occurred more often than the one copy removed |
| BoxedArrays.CopyTo | src/util/boxed_array.hpp:40-44 | the source is copied into the front of the storage and the rest is untouched |
| BoxedArrays.BoxedArray.Empty | src/util/boxed_array.hpp:22-24 | fresh storage holding nothing |
| BoxedArrays.BoxedArray.Sized | src/util/boxed_array.hpp:27-31 | fresh storage of `n` zero bytes |
| BoxedArrays.BoxedArray.FromRange | src/util/boxed_array.hpp:34-45 | fresh storage whose contents equal the range |
| BoxedArrays.BoxedArray.FromCString | src/util/boxed_array.hpp:57-67 | the size is the position of the first NUL; the contents are the bytes before it, NUL-free |
| BoxedArrays.BoxedArray.Copy | src/util/boxed_array.hpp:70-79 | fresh storage with equal contents and size |
| BoxedArrays.BoxedArray.Size | src/util/boxed_array.hpp:123-125 | the size field is the number of elements |
| BoxedArrays.BoxedArray.Swap | src/util/boxed_array.hpp:127-130 | the two arrays exchange storage and size |
| BoxedArrays.BoxedArray.Equals | src/util/boxed_array.hpp:149-156 | true exactly when the contents are equal |
| BoxedArrays.BoxedArray.Hash | src/util/boxed_array.hpp:160-173 | the loop returns the fold of the mixing step over the contents seeded with the size, so equal contents hash equally |
| ClientMessage.MinSize | src/client/message.hpp:197-208 | no smaller than any message's minimum size and equal to one of them |
| ClientMessage.DecodeInvalidName | src/client/message.hpp:49-70 | a short range fails at 0; it accepts exactly when the range starts with the three-byte frame, leaving the cursor after it |
| ClientMessage.FindSeparator | src/client/message.hpp:106-113 | the search fails exactly when the range holds neither USER_SEP nor END |
| ClientMessage.FindSeparatorAgrees | src/client/message.hpp:106-113 | on a range whose only END is its last byte, the search lands on the first USER_SEP or END |
| ClientMessage.DecodeUsersListAsWritten | src/client/message.hpp:89-131 | where the code stays inside the range, it accepts exactly the frame of the empty list |
| ClientMessage.UsersListAsWrittenRejectsNames | src/client/message.hpp:117-124 | every encoded list holding a name is rejected, with the cursor left at 2 |
| ClientMessage.DecodeUsersList | src/client/message.hpp:89-131 | a short range fails at 0; a success is a users list whose frame carries the users_list tag |
| ClientMessage.DecodeUsersListLoop | src/client/message.hpp:104-130 | the loop pushing one name per separator, stopping at END, computes the corrected decoder |
| ClientMessage.DecodeText | src/client/message.hpp:152-193 | a short range fails at 0; after a failure the cursor is 1 past a matched heading, else 0; a success is a text with the text tag |
| ClientMessage.Decode | src/client/message.hpp:217-235 | the three decoders in turn, each from the start, with the corrected users_list decoder; after a failure the cursor is where the last one left it |
| ClientMessage.AtMostOneDecoderAccepts | src/client/message.hpp:217-235 | the tags differ, so no range is accepted by two decoders |
| ClientMessage.DecodeWire | src/client/message.hpp:217-235 | round trip, over the corrected users_list decoder and encoder: the encoding of an encodable message, whatever follows it, decodes to that message and consumes exactly the encoding |
| ClientMessage.DecodeConsumesWire | src/client/message.hpp:217-235 | converse, over the corrected users_list decoder: what a successful decode consumed is exactly the encoding of an encodable message |
| ClientMessage.PutByte | src/client/message.hpp:269-270 | `*packet_it++ = b`: the bytes written so far are followed by `b`, and every byte after it is unchanged |
| ClientMessage.CopyInto | src/client/message.hpp:273-277 | `std::copy` into the packet: the bytes written so far are followed by the source, and every byte after the copy is unchanged |
| ClientMessage.PutUser | src/client/message.hpp:272-280 | one name of the loop: the bytes written so far are followed by the name and USER_SEP, and every byte after them is unchanged |
| ClientMessage.EncodeInvalidName | src/client/message.hpp:241-253 | the packet holds heading, tag and END |
| ClientMessage.UsersBodyLength | src/client/message.hpp:256-263 | the accumulated size, less its initial 2, is the length of the names with their separators |
| ClientMessage.UsersListOverflowsByOne | src/client/message.hpp:256-282 | the layout encode writes is one byte longer than the packet it allocates |
| ClientMessage.EncodeUsersList | src/client/message.hpp:255-285 | the corrected packet is one byte longer than the allocation as written and holds heading, tag, each name followed by USER_SEP, then END |
| ClientMessage.EncodeText | src/client/message.hpp:287-316 | the packet is 4 bytes longer than sender and body together and holds their layout |
| ClientMessage.Encode | src/client/message.hpp:238-320 | the packet holds the message's layout; a users list goes through the corrected encoder, which allocates room for the closing END |
| ClientMessage.WireDelimited | src/client/message.hpp:241-316 | every encoding opens with HEADING, closes with END and has at least three bytes |
| ClientMessage.WireEndsOnce | src/client/message.hpp:241-316 | an encodable message whose sender holds no END has END only as its last byte |
| ServerMessage.FromListUsers | src/server/message.hpp:39-60 | a short range fails at 0; it accepts exactly the three-byte frame, leaving the cursor after it |
| ServerMessage.FromBroadcast | src/server/message.hpp:74-103 | it accepts exactly when heading and tag lead and an END follows; the text is what lies up to the first END; on failure the cursor is 1 past a matched heading, else 0 |
| ServerMessage.FromUnicast | src/server/message.hpp:118-159 | a success consumes heading, tag, a target free of TEXT, TEXT, a text free of END, then END; on failure the cursor is 1 past a matched heading, else 0 |
| ServerMessage.UnicastLayout | src/server/message.hpp:128-153 | the stretch between the two searches is the layout of the unicast read from it |
| ServerMessage.BroadcastLayout | src/server/message.hpp:84-98 | a stretch opened by heading and tag and closed by END is the layout of the broadcast of what lies between |
| ServerMessage.Parse | src/server/message.hpp:169-187 | the three decoders in turn, each from the start; never a rename; after a failure the cursor is 1 past a matched heading of a long enough range, else 0 |
| ServerMessage.FromBroadcastReads | src/server/message.hpp:74-103 | a broadcast laid out as accepted comes back whole, whatever follows |
| ServerMessage.FromUnicastReads | src/server/message.hpp:118-159 | a unicast laid out as accepted comes back whole, whatever follows |
| ServerMessage.ParseWireFormat | src/server/message.hpp:169-187 | round trip: the layout of a framable message, whatever follows, parses to it and consumes exactly the layout |
| ServerMessage.ParseConsumesWireFormat | src/server/message.hpp:169-187 | converse: what a successful parse consumed is exactly the layout of a framable message |
| ServerMessage.WireFormatDelimited | src/server/message.hpp:39-159 | every layout opens with HEADING and closes with END |
| ServerMessage.WireFormatEndsOnce | src/server/message.hpp:39-159 | a framable layout whose unicast target holds no END has END only as its last byte |
| ServerMessage.AtMostOneDecoderAccepts | src/server/message.hpp:169-187 | no range is accepted by two decoders |
| ReadBuffers.Received | src/util/read_buffer.hpp:25-41 | a receive never takes the buffer past its capacity and adds nothing to a full buffer |
| ReadBuffers.ScanStep | src/util/read_buffer.hpp:73-96 | one pass: a message, or the buffer cleared or kept whole, or the frame's heading and the parser's stop for the next pass |
| ReadBuffers.Extract | src/util/read_buffer.hpp:73-96 | the cut point lies inside the buffer |
| ReadBuffers.ReadBuffer.constructor | src/util/read_buffer.hpp:53-55 | an empty buffer of the given capacity |
| ReadBuffers.ReadBuffer.Receive | src/util/read_buffer.hpp:25-41 | the buffer grows by one receive and stays within capacity |
| ReadBuffers.ReadBuffer.Read | src/util/read_buffer.hpp:60-105 | receive, then return the message `Extract` finds and keep only the bytes after its cut |
| ReadBuffers.Scan | src/util/read_buffer.hpp:71-96 | the frame loop returns what `Extract` specifies |
| ReadBuffers.Pass | src/util/read_buffer.hpp:74-95 | the loop body: find the heading, find END after it, hand the frame to the parser; this is `ScanStep` |
| ReadBuffers.ExtractKeepsOrClears | src/util/read_buffer.hpp:76-89 | when no message comes out, the buffer is kept whole or cleared, never cut in between |
| ReadBuffers.ExtractGarbage | src/util/read_buffer.hpp:74-79 | with no heading, the buffer is cleared and nothing is returned |
| ReadBuffers.PassNoEnd | src/util/read_buffer.hpp:81-89 | when the first heading from `begin` has no END after it, the loop stops with no message: the buffer is kept whole for the next read, unless it is full, when it is cleared |
| ReadBuffers.ExtractPartial | src/util/read_buffer.hpp:81-89 | a buffer whose first heading has no END after it (END may come before the heading) is kept for the next read, unless it is full, when it is dropped |
| ReadBuffers.ExtractFramePrefix | src/util/read_buffer.hpp:81-89 | for any parser, a strict prefix of a frame whose only END is its last byte yields no message and is kept whole, in a buffer not full |
| ReadBuffers.ExtractFirstFrame | src/util/read_buffer.hpp:74-102 | the first frame from the first heading to the first END after it is decoded; the buffer is cut where the decoder stopped |
| ReadBuffers.ExtractFrameAfterGarbage | src/util/read_buffer.hpp:74-102 | a frame that decodes whole, behind bytes holding no heading, is returned and exactly the bytes after it are kept |
| ReadBuffers.ExtractSkipsFrame | src/util/read_buffer.hpp:91-96 | a frame that does not decode is passed over and scanning resumes strictly after its heading |
| ReadBuffers.ScanStepSpins | src/util/read_buffer.hpp:73-96 | as written: once a frame fails with the parser stopped on its heading, the next pass is the same pass again |
| Framing.ClientSideWellBehaved | src/client/message.hpp:217-235 | the client's decoder never leaves the cursor past the range |
| Framing.ServerSideWellBehaved | src/server/message.hpp:169-187 | the server's parser never leaves the cursor past the range |
| Framing.ClientReadsFrame | src/util/read_buffer.hpp:73-102 | an encoded server-to-client message behind garbage is read as itself, and the bytes after it are kept |
| Framing.ServerReadsFrame | src/server/client.hpp:58-64 | a framable client-to-server message behind garbage is read as itself, and the bytes after it are kept |
| Framing.ClientKeepsPartialFrame | src/util/read_buffer.hpp:81-89 | a strict prefix of an encoding, in a buffer not full, yields no message and is kept whole |
| Framing.ServerKeepsPartialFrame | src/util/read_buffer.hpp:81-89 | a strict prefix of a client-to-server layout, in a buffer not full, yields no message and is kept whole |
| Framing.FirstPieceKept | src/util/read_buffer.hpp:60-89 | the first piece of a split encoding is received whole and yields no message |
| Framing.SecondPieceCompletes | src/util/read_buffer.hpp:60-102 | the rest of the encoding, with more bytes behind it, is received whole; together with the first piece it yields the message and leaves exactly the bytes behind it |
| Framing.ClientReadsSplitFrame | src/util/read_buffer.hpp:60-105 | two successive reads on one buffer: the first, of a strict prefix of an encoding, returns nothing; the second, of the rest and more bytes, returns the message and keeps exactly those bytes |
| Framing.ServerDropsOverlongFrame | src/util/read_buffer.hpp:83-87 | a full buffer holding a heading and no END yields nothing and is cleared |
| Framing.ClientReaderSpins | src/util/read_buffer.hpp:73-96 | the frame `01 33 04` makes the loop as written repeat its pass; the corrected loop clears it |
| Framing.ServerReaderSpins | src/util/read_buffer.hpp:73-96 | the frame `01 04` does the same on the server side |
| ServerEngine.Names | src/server/server.hpp:75-82 | one name per client, in client order |
| ServerEngine.Polled | src/server/server.hpp:141-145 | poll fills in each entry's events and keeps its descriptor |
| ServerEngine.Server.constructor | src/server/server.hpp:48-56 | no clients, the listener as the only poll entry, an empty catalogue |
| ServerEngine.Server.GetClient | src/server/server.hpp:59-65 | entry `k >= 1` maps to the client whose descriptor it holds; the listener's entry maps before the first client |
| ServerEngine.Server.ListUsers | src/server/server.hpp:68-85 | one name per client, in client order |
| ServerEngine.Server.Accept | src/server/server.hpp:89-111 | a newcomer whose name is catalogued is turned away with nothing changed; otherwise client, poll entry and catalogue entry are appended; the invariants hold after |
| ServerEngine.Server.Remove | src/server/server.hpp:160-168 | client and poll entry are swap-popped, the name leaves the catalogue, the moved client is re-catalogued; the invariants hold after |
| ServerEngine.Server.Dispatch | src/server/server.hpp:114-134 | `list_users` is answered to its sender with the names of all clients; other messages get no answer |
| ServerEngine.Server.Wake | src/server/server.hpp:137-174 | after one wake-up the invariants hold; a client that was there is gone exactly when poll reported it ready and its connection closed; the newcomer came in exactly when the listener was ready and its name was free, and nobody else came in; every client that was ready, connected and asked for the users list got exactly one, and nothing else was sent; each list names every client left after the wake-up and only clients there before it or the newcomer; every answer went to a client still connected |
| ServerEngine.Server.Walk | src/server/server.hpp:156-174 | over the client entries: exactly the clients ready and disconnected are gone, the one swapped into a vacated slot included; every client kept sits beside its own poll entry with its events; each ready connected client that asked got exactly one users list and no one else got any; each list names every client left after the walk and only clients there before it |
| ServerEngine.Server.Visit | src/server/server.hpp:157-171 | the visited client is removed exactly when poll reported it ready and it is disconnected; otherwise clients and entries are unchanged; the reply is the users list of all names, to the visited client, exactly when it was ready, connected and asked for it, and none otherwise |
| ServerEngine.CataloguedNamesUnique | src/server/server.hpp:94-109 | the catalogue keeps client names unique |
| ServerEngine.AcceptKeepsCatalogued | src/server/server.hpp:98-109 | appending a client under a free name keeps the catalogue exact |
| ServerEngine.RemovalKeepsAligned | src/server/server.hpp:162-163 | swap-popping client `k - 1` and entry `k` keeps each client beside its entry |
| ServerEngine.RemovalKeepsCatalogued | src/server/server.hpp:161-167 | the corrected repair leaves the catalogue exact |
| ServerEngine.RepairedKeys | src/server/server.hpp:161-167 | the repaired catalogue has lost exactly the removed name |
| ServerEngine.WalkStep | src/server/server.hpp:156-171 | one visit keeps the walk's state, whether it removes the client, answers it or leaves it |
| ServerEngine.WalkRemoveStep | src/server/server.hpp:160-163 | a removal keeps the walk's state: the client swapped into the vacated slot is still to be visited, only the doomed client is lost, and the lists sent still name every client left |
| ServerEngine.RemovalReplies | src/server/server.hpp:160-163 | removing a disconnected client keeps every list sent naming every client left |
| ServerEngine.WalkAnswerStep | src/server/server.hpp:157-171 | visiting a client that asked, without removing it, settles its entry and answers it once more, with the names of the clients present |
| ServerEngine.WalkQuietStep | src/server/server.hpp:157-171 | visiting a client that did not ask, without removing it, settles its entry and sends nothing |
| ServerEngine.AnswerReplies | src/server/server.hpp:68-85 | the answer goes to the client visited, which asked, and names every client present, only clients there at the start |
| ServerEngine.NamesBetween | src/server/server.hpp:75-82 | the names of the clients present list each of them, and only clients there at the start |
| ServerEngine.AnswerVisited | src/server/server.hpp:157-171 | after a visit, the clients answered are exactly the visited ones that asked, none twice |
| ServerEngine.WalkDone | src/server/server.hpp:150-174 | once every entry is visited, exactly the doomed clients are gone, the rest keep their own entries, and each client that asked got exactly one list naming every client left and only clients there at the start |
| ServerEngine.WakeOutcome | src/server/server.hpp:141-174 | the newcomer, accepted with no events, is neither removed nor answered, so the walk's outcome reads back over the clients there were before |
| ServerEngine.WakeServed | src/server/server.hpp:141-174 | the answers over the clients after accept are answers, one per asking client, over the clients before it; the lists name only those clients or the newcomer |
| ServerEngine.DisconnectedLeaves | src/server/server.hpp:160-163 | removing a disconnected client keeps every connected one and adds none |
| ServerEngine.ReadyAsWrittenAlways | src/server/server.hpp:153-157 | as written, every entry counts as ready, one with no events too |
| ServerEngine.WalkAsWrittenMisses | src/server/server.hpp:150-173 | as written, the walk asks for client -1 at the listener's slot, skips the client swapped into a vacated slot, and reads past the shrunk entries |
| ServerEngine.RepairPastEndAsWritten | src/server/server.hpp:165-167 | as written, removing the last of two clients repairs the catalogue from index 1 of a list of one |
| ClientEngine.Parse | src/client/client.hpp:67-113 | a line parses exactly into the message whose command it is; with no `;` only `users` parses |
| ClientEngine.ParseCommand | src/client/client.hpp:67-113 | every typeable message is parsed back from its command |
| ClientEngine.ParseUnicastCommand | src/client/client.hpp:100-110 | `uni;<target>;<text>` is cut at its two semicolons |
| ClientEngine.Handle | src/client/client.hpp:159-176 | end of input and `exit` stop; a line that parses is sent, and the message sent is typeable with the line as its command, so (by ParseCommand) it is the one message parse yields; anything else is reported |
| ClientEngine.Process | src/client/client.hpp:150-177 | the lines are handled in order until the client stops; returns the messages sent and the count of lines reported |
| ClientEngine.ExitStops | src/client/client.hpp:170-171 | nothing typed after `exit` is sent or reported |
| ClientEngine.EveryLineAnswered | src/client/client.hpp:173-176 | up to `exit`, every line is either sent or reported |
| ClientEngine.SentWasTyped | src/client/client.hpp:173-174 | every message sent is typeable and is the command of a line typed |

## Left out

- Sockets, `poll`, `recv`, `send`, `getline` and printing to the terminal are not modelled.
  - A receive is a parameter `recv(n)` that delivers at most `n` bytes.
  - A client's connection state is the `connected` flag of its session.
  - What a client's `read()` returns is the parameter `incoming`.
  - The events `poll` reports are the parameter `revents`.
  - The replies the server would send are returned as `Outgoing` values.
- `process_incoming_message` of the client only prints, so it is not modelled. Neither is the client's poll over stdin and the server socket. `ClientEngine.Process` covers only the stdin side.
- A session holds no read buffer of its own. The read buffer is modelled once, in `ReadBuffers`, and applied to both directions in `Framing`.
- `ServerEngine.Server.Accept`: the newcomer's name is a parameter.
  - `src/server/server.hpp` calls `client.name()`.
  - `src/server/client.hpp` declares `name` as an optional field that stays empty, with an `anonymous` default (line 34).
  - Anonymous clients and renaming are therefore not modelled.
- `ServerEngine.Server.Wake`: `process` calls `accept`, which may reallocate the poll entries, after it has taken iterators into them (`src/server/server.hpp:150-154`). Iterator invalidation and aliasing are outside a model over sequences.
- `ServerEngine.Server.Wake`: the accept branch takes the newcomer as a parameter. It does not model `accept` blocking when no connection is pending.
- `ClientMessage.DecodeEntries` searches for the first USER_SEP or END. `find_separator` searches the whole range for USER_SEP first and falls back to END. The two agree whenever the range's only END is its last byte (`ClientMessage.FindSeparatorAgrees`), and that holds for every range `read` hands to the decoder, since the frame ends at the first END (`src/util/read_buffer.hpp:81-95`). They can differ on a range with a USER_SEP after an END, which `read` never passes.
- `BoxedArrays.BoxedArray.Hash`: the hash of one byte, `std::hash<uint8_t>`, is implementation-defined, so it is a parameter.
  - `size_t` is taken as 64 bits.
  - The accessors `get`, `operator*`, `operator->`, `operator[]`, `begin` and `end` are left out, along with the move operations and `operator<<`. They are expressed through the storage array.
- The server's `client::read` (`src/server/client.hpp:58-64`) calls `message::decode` and checks its buffer against `message::min_size` (line 22). `src/server/message.hpp` defines neither; its only combined decoder is `parse` (lines 169-187). The model reads the server side with `parse`, and the server buffer's capacity is a parameter rather than a bound derived from `min_size`.
- `ClientMessage.Decode`: composes the corrected `ClientMessage.DecodeUsersList` (see "## Findings"). As written, `decode` accepts only the empty users list: `01 05 61 1F 04`, the list `["a"]`, is rejected.
- `ClientMessage.Encode`: composes the corrected `ClientMessage.EncodeUsersList` (see "## Findings"). As written, `encode` writes one byte past the packet it allocates for any users list.
- `ClientMessage.DecodeWire`: the round trip holds for the corrected decoder and encoder. As written, `decode` gives a users list back only when it is empty, and `encode` overflows its packet for every users list.
- `ClientMessage.DecodeConsumesWire`: stated over the corrected decoder, as `ClientMessage.DecodeWire` is.
- `Framing.ClientReadsFrame`: the client's buffer decodes with `ClientMessage.Decode`, so a frame holding a non-empty users list is read only with the corrected decoder. `Framing.ClientKeepsPartialFrame` and `Framing.ClientReadsSplitFrame` are stated over the same corrected decoder.
- The rename request `name;<name>` is parsed by the client. The server has no decoder and no handler for it, so the model has none either.
- `src/socket/*` (addresses, connections, sending and receiving) and the `main` files are not part of this model.

## Findings

| source | as written | input that shows it | evidently intended | confidence | as-written member | corrected member |
|---|---|---|---|---|---|---|
| src/client/message.hpp:256-282 | the users_list packet is allocated as 2 plus, per name, its length plus 1; heading, tag, the names with separators, and END are then written into it | any users list; the empty one gets 2 bytes and has 3 written | allocate 3 plus the names with their separators, room for the closing END | high; not executed | ClientMessage.UsersListOverflowsByOne | ClientMessage.EncodeUsersList |
| src/client/message.hpp:117-124 | the loop runs while `find_separator` finds neither USER_SEP nor END, and then steps past the end of the range | the list `["a"]`, encoded `01 05 61 1F 04`, is rejected with the cursor at 2 | collect a name per USER_SEP and stop at END | high; not executed | ClientMessage.UsersListAsWrittenRejectsNames | ClientMessage.DecodeUsersListLoop |
| src/util/read_buffer.hpp:73-96 | after a frame that does not decode, the loop searches again from where the parser left `begin`, which can be the frame's own heading | client frame `01 33 04`, server frame `01 04`: every decoder fails with the cursor on the heading, and the same pass repeats forever | resume at least one byte past the failed frame's heading | high; not executed | ReadBuffers.ScanStepSpins | ReadBuffers.Scan |
| src/server/server.hpp:165-167 | after a removal, the catalogue is repaired from the client now at the vacated index whenever any client remains | two clients; the second disconnects; the repair reads index 1 of a list of one | repair only when a client was moved into the vacated slot | high; not executed | ServerEngine.RepairPastEndAsWritten | ServerEngine.Server.Remove |
| src/server/server.hpp:153-157 | readiness is checked as `revents \| POLLIN`, which is never zero | an entry with `revents == 0` counts as ready; every wake accepts and visits every client | `revents & POLLIN` | high; not executed | ServerEngine.ReadyAsWrittenAlways | ServerEngine.Server.Wake |
| src/server/server.hpp:150-173 | the walk starts at the listener's entry, advances after a swap-pop and compares with the end taken before the walk | listener 10, clients 11 and 12, 11 closed: client -1 is asked for, 12 is never visited, and slot 2 is read past the two entries left | start at entry 1, stay on a slot that received the last entry, stop at the current size | high; not executed | ServerEngine.WalkAsWrittenMisses | ServerEngine.Server.Walk |
