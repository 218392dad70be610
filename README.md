# Chatroom relay, modelled in Dafny

A small TCP chat relay written in C. The server (`server.c`) keeps a table
of up to 100 connected clients. It gives each accepted connection a fresh
uid and registers it at once. A handler per connection reads a nickname
(the handshake), announces "<alias> joined", relays every non-empty message
to all other clients, and announces "<alias> left" when the peer closes.
The client (`client.c`) reads a nickname and lines from the console. It
cleans each line, checks the nickname and port, and sends each line as
"[nickname]: line".

This project models the sequential core of both programs and proves what
they do:

- `wrappers.dfy`: the `Option` type.
- `cstring.dfy`: C strings over `seq<char>`.
  - `StrLen` is `strlen` (up to the first NUL), `CStr` is the text it
    delimits, and `Zeros` is a zeroed buffer.
  - `Snprintf` is `snprintf`'s truncation to `size - 1` chars.
- `server_text.dfy`: `remove_trailing_newline` (in place, on an array) and
  the octet split of `display_ip`.
- `registry.dfy`: the client table as a value.
  - What `register_client`, `unregister_client` and `broadcastMessage` do
    to it, as specification functions (`Registered`, `Unregistered`,
    `Sweep`), with lemmas about uids and recipients.
- `session.dfy`: what one `handle_client` broadcasts, given the outcomes
  of its `recv` calls. This is the handshake, the read loop, and whether
  it disconnects.
- `server.dfy`: the server's globals as the class `Server.ChatServer`,
  with one method per operation, each proved against the functions above.
  - `clients` is an `array<Option<Client>>` updated in place.
  - `connected_clients` and `client_uid_counter` are fields.
- `client.dfy`: `sanitize_input` (in place, on an array), the nickname and
  port checks, the case-insensitive quit test and the message format.

Each table operation and each handler runs as one atomic step, as the
table mutex makes the table operations. `recv` results are inputs: a
`Recv` is some bytes, an orderly close (0) or an error (-1). Whether a
`send` succeeds is an oracle `sendOk(fd, payload)`.

Where the code and its intended design differ, the model follows the code:

- Clients are registered when accepted, before their handshake (server.c:191-193).
- A failed send stops the rest of a broadcast (server.c:83-86).
- A received "exit" is relayed as chat. The `strcmp(buffer, "exit")` test
  is reached only when `recv` returned a negative value (`recvd == 0`
  short-circuits it). The model starts the buffer zeroed, and the code
  zeroes it after every pass (server.c:129), so after a failed `recv` it
  never reads "exit" (server.c:113-119). `LoopStepByBuffer` and `ExitIsRelayed`
  state this.
- `register_client` drops the client silently when no slot is free
  (server.c:57-62).

## Model

| member | source | states |
|---|---|---|
| CString.StrLen | server.c:114 | the length is the index of the first NUL, or the whole buffer when it holds none |
| CString.Zeros | server.c:129 | a zeroed buffer of the given size, whose string is empty |
| CString.Snprintf | server.c:106 | the result is a prefix of the full text: the whole text when it fits, and exactly size - 1 chars when it does not |
| ServerText.NewlineRemoved | server.c:36-43 | only the first '\n' among the first len chars becomes NUL; with none, the buffer is unchanged |
| ServerText.RemoveTrailingNewline | server.c:36-43 | the array afterwards is NewlineRemoved of the array before |
| ServerText.Octets | server.c:47-51 | four octets, each in [0, 255] |
| ServerText.OctetsRecombine | server.c:47-51 | octet0 + 256·octet1 + 65536·octet2 + 16777216·octet3 is the address |
| ServerText.OctetsInjective | server.c:46-52 | different addresses print different octets |
| Registry.Registered | server.c:55-64 | the client goes into the lowest-indexed empty slot and no other slot changes; a full table is unchanged |
| Registry.Unregistered | server.c:67-76 | the lowest-indexed slot holding the uid is emptied and no other slot changes; an absent uid changes nothing |
| Registry.RegisteredKeepsUidsUnique | server.c:55-64 | registering a new uid keeps uids unique and adds the uid exactly when a slot is free |
| Registry.UnregisteredRemovesUid | server.c:67-76 | with unique uids, the uid leaves the table and uids stay unique |
| Registry.UnregisterUndoesRegister | server.c:55-76 | unregistering a client just registered under a new uid restores the table |
| Registry.Recipients | server.c:81-82 | the uids a full broadcast addresses never include the sender |
| Registry.RecipientsMembership | server.c:81-82 | a uid is addressed exactly when it is not the sender and an earlier slot holds it |
| Registry.RecipientsDistinct | server.c:79-90 | with unique uids, nobody is addressed twice |
| Registry.SweepMeaning | server.c:79-90 | no send fails exactly when every addressed send succeeds, and then every addressed uid gets the message in slot order; otherwise the broadcast stops at the first failing addressed slot, and exactly the uids addressed before it got the message |
| Registry.Sweep | server.c:81-87 | the broadcast loop over the first n slots delivers to at most n clients, never to the sender, and a failed slot lies among those n |
| Registry.Deliveries | server.c:79-90 | the outcome of each of a handler's broadcasts, in order, is what Sweep gives for that message over the whole table |
| Registry.SweepSettled | server.c:83-86 | after a failed send, later slots change nothing |
| Registry.SweepSkipsSenderAndLaterSlots | server.c:79-90 | the sender never gets its own message; a client at or after the failed slot gets nothing |
| Session.Fill | server.c:112 | `recv` overwrites the start of the buffer with the bytes read and keeps the rest |
| Session.Notice | server.c:105-106 | the join or leave announcement is "<alias>" followed by the event, never cut when it fits the 2048-byte buffer, and always shorter than it |
| Session.AliasAfter | server.c:101 | the alias field after the handshake read is 32 chars; its text is the text received, and empty after a close or an error |
| Session.HandshakeOk | server.c:101-102 | the handshake succeeds exactly when `recv` delivered bytes whose text is at least 2 chars long |
| Session.ReadLoop | server.c:111-130 | the loop consumes at most the reads given, and a disconnect consumes at least one |
| Session.Run | server.c:101-111 | the join notice, "<text received> joined\n", comes first exactly when the handshake returned > 0 with an alias of at least 2 chars; otherwise nothing is broadcast and the handler disconnects at once |
| Session.LoopStep | server.c:112-129 | one pass stops exactly when `recv` did not deliver bytes; an error broadcasts nothing; a pass broadcasts at most one message, never an empty one |
| Session.LoopStepByBuffer | server.c:112-129 | the C branching on `recvd`, `strlen(buffer)` and `strcmp(buffer, "exit")` over a zeroed buffer gives the pass LoopStep describes |
| Session.ReadLoopRelaysAll | server.c:111-118 | with only successful reads, every non-empty text is relayed in order and the handler keeps reading |
| Session.ReadLoopStopsAt | server.c:111-130 | the loop relays the text before the first close or error and stops there; it announces the leave only for an orderly close |
| Session.ExitIsRelayed | server.c:113-119 | a received "exit" is relayed like any chat and the loop goes on |
| Server.ChatServer.constructor | server.c:16-26 | an empty table, no connections, uids counted from 1 |
| Server.ChatServer.RegisterClient | server.c:55-64 | the table afterwards is Registered of the table before |
| Server.ChatServer.UnregisterClient | server.c:67-76 | the table afterwards is Unregistered of the table before |
| Server.ChatServer.BroadcastMessage | server.c:79-90 | the delivered uids and the failed slot are those Sweep describes |
| Server.ChatServer.Accept | server.c:180-193 | the connection is refused, with nothing changed, exactly when 100 handlers run; otherwise the client gets the counter's uid, never issued before, the counter goes up by one and the client is registered |
| Server.ChatServer.ReadPass | server.c:112-129 | one pass of the loop broadcasts and stops as LoopStep says, with the outcomes Deliveries gives |
| Server.ChatServer.RunReadLoop | server.c:111-130 | the loop broadcasts what ReadLoop says, with the outcomes Deliveries gives |
| Server.ChatServer.Serve | server.c:101-130 | the handler broadcasts what Run says, with the outcomes Deliveries gives |
| Server.ChatServer.Teardown | server.c:132-135 | the handler's uid is unregistered and the connection counted out; uids stay unique and issued |
| Server.ChatServer.HandleClient | server.c:93-138 | the handler broadcasts what Run says, with the outcomes Deliveries gives over the table as it began, and on disconnecting (failed handshake included) unregisters its own uid |
| ChatClient.Sanitized | client.c:23-31 | only the first '\n' or '\r' among the first maxLen chars becomes NUL; with none, only char maxLen - 1 becomes NUL; the string is then shorter than maxLen |
| ChatClient.SanitizeInput | client.c:23-31 | the array afterwards is Sanitized of the array before |
| ChatClient.TypedLength | client.c:23-31 | the typed line ends at the first NUL, '\n' or '\r', and is at most maxLen - 1 chars |
| ChatClient.SanitizedText | client.c:23-31 | after sanitizing, the string is exactly the typed line |
| ChatClient.NicknameAccepted | client.c:132 | a nickname buffer is accepted exactly when its text is 2 to 30 chars long |
| ChatClient.NicknameRule | client.c:126-135 | a nickname is accepted exactly when the typed name is 2 to 30 chars long, and an accepted name is kept whole |
| ChatClient.Port | client.c:137 | the port is the argument modulo 2^16 |
| ChatClient.PortAccepted | client.c:138 | the port check passes exactly when the 16-bit port is at least 1024 |
| ChatClient.PortRule | client.c:137-141 | the port is refused exactly when its 16-bit value is below 1024; the test `port > 65535` never holds |
| ChatClient.PortWrapsAround | client.c:137-138 | the argument 66560 (or -64512) is accepted and used as port 1024 |
| ChatClient.PortInRangeIsExact | client.c:137-138 | a range test on the argument itself accepts exactly the arguments that pass the code's test and are used unchanged |
| ChatClient.Lowered | client.c:52-53 | every char lowered, length kept |
| ChatClient.IsQuitCommand | client.c:52-53 | a line that means quit is 4 chars long ("quit" or "exit" in some case) |
| ChatClient.QuitCommandRule | client.c:52-55 | a line means quit exactly when, lowered, it reads "quit" or "exit" |
| ChatClient.FormatMessage | client.c:57-58 | a nickname of at most 30 chars and a line of at most 2047 give exactly "[nickname]: line\n" |
| ChatClient.OnLine | client.c:52-58 | one pass of `send_messages` shuts down exactly when the line is a quit command, and otherwise sends a text shorter than the 2112-byte buffer |
| ChatClient.OutgoingMessage | client.c:48-58 | for an accepted nickname, a typed line that reads quit or exit in any case shuts the client down; any other line is sent as "[nickname]: line\n", never cut |

## Left out

- Sockets, `accept`, `connect`, `inet_pton`, `close` and the real `send`/`recv` calls: `recv` results are inputs and `send` success is an oracle.
- Threads and the mutex: each table operation and each handler is one atomic step. Interleavings of handlers, and the race between `connected_clients++` in the handler and the capacity check at accept, are not modelled.
- `printf`/`perror` logging, `display_prompt`, and the prints of `display_ip`. Octets models only the arithmetic `display_ip` prints. The `remove_trailing_newline` call inside the handler only affects a log line, so the handler does not model it.
- `malloc`/`free` and the `sockaddr_in` address stored in each record.
- Undefined behaviour on unterminated or uninitialised buffers: the alias field and the handler's buffer start zeroed. `strlen` of a buffer with no NUL is taken as the whole buffer.
- Server.ChatServer.Accept: `client_uid_counter` is an unbounded integer, so the signed overflow after 2^31 - 1 accepts is not modelled.
- Server.ChatServer.HandleClient: the handshake alias is not written back into the table's copy of the record (the table holds values, and nothing reads the alias through the table).
- Server.ChatServer.HandleClient: a script of reads that runs out stands for a handler still blocked in `recv`, so no teardown happens.
- Registry.Sweep: whether a send succeeds depends only on the socket and the payload (the oracle), not on time or earlier sends.
- The client's threads, `fgets`, the signal handler, the receive thread's printing, and `atoi`'s parsing of text. The port argument is taken as the integer `atoi` returns.
- Chars stand for bytes; no encoding is modelled.

## Findings

| source | as written | input that shows it | evidently intended | confidence | as-written member | corrected member |
|---|---|---|---|---|---|---|
| client.c:137-138 | `atoi` is cast to `uint16_t` before the range test, so `port > 65535` can never hold | the argument 66560 passes and the client connects to port 1024 | refuse arguments outside 1024..65535 before the cast | not executed | ChatClient.PortWrapsAround | ChatClient.PortInRangeIsExact |
