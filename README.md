# php-websocket chat server, modelled in Dafny

`websocket.php` is a single-file chat relay written in PHP. It defines a class,
`WebSocketServer`, which listens on one TCP socket. It upgrades every new
connection with the WebSocket opening handshake and keeps an array of sockets:
the listener first, then every accepted client. The server broadcasts JSON
notices as unmasked text frames (section 5.2 of RFC 6455). The notices are:

- a welcome notice when a client joins;
- a departure notice when a read fails;
- a chat line for every message a client sends.

Client frames are unmasked with the 4-byte key of section 5.3 of RFC 6455.

A byte is the integer `ord` gives, 0 to 255. PHP's `^` on two one-byte strings
is defined bit by bit (`Frame.Xor`); `& 127` is the remainder modulo 128, and
the MASK bit is set when the byte is at least 128.

The model has five modules:

- `Base`: the byte type, `Option` and `Result`.
- `Frame`: `seal` and `unseal`. There is also a reference reading of an RFC 6455
  server frame (`ServerPayload`) and a builder of masked client frames
  (`ClientFrame`). The codec is proved against both.
- `Handshake`: `doHandshake`. This covers splitting the request at CRLF, `chop`,
  the `\A(\S+): (.*)\z` header pattern, the header dictionary where the last
  line wins, and the response text.
- `Notices`: the three notice builders. It also holds readers that recover the
  address, or the user and the text, from a notice message.
- `Server`: `send` and one pass of the `while (true)` loop of `run`. One pass is
  written twice:
  - as values (`Admit`, `Depart`, `Scan`, `Pass`), with the lemmas;
  - as the class `WebSocketServer`, whose methods update `clients` and the
    `outbox` log in place and are proved equal to the value functions.

Socket calls are not executed. What they return in one pass is an `Io` value
that the caller supplies. Every `socket_write` is appended to `outbox`, so what
the server sends, and to whom, is part of the state. SHA-1/base64,
`json_encode`, `json_decode` and the host and port are parameters (`Env`).

Behaviours of `websocket.php` worth stating:

- The departure notice is built and broadcast on every failed read
  (websocket.php:137-144).
- There is no identity or receive hook. A message is always unsealed,
  decoded and broadcast as a chat line (websocket.php:129-133).
- `break 2` ends the whole pass after the first message, not just the inner
  loop (websocket.php:134).
- A request without `Sec-WebSocket-Key` is answered with the digest of the GUID
  alone. It is not refused.
- A short or malformed frame is unmasked as far as it goes, and is not
  rejected.
- The handshake treats each byte of the request that `socket_read` returns
  as one `char` of the request string, with no character decoding.

## Model

| member | source | states |
|---|---|---|
| Frame.Pack16 | websocket.php:47 | the `n` field is two bytes whose big-endian value is the length |
| Frame.Header | websocket.php:41-49 | a header exists exactly below 65536 bytes; it is 2 bytes up to 125 and 4 bytes above; byte 0 is FIN+text (0x81) and the MASK bit is clear |
| Frame.Seal | websocket.php:40-51 | sealing succeeds exactly for payloads under 65536 bytes; the frame starts with 0x81, is unmasked, and a client reading it by RFC 6455 gets exactly the payload back |
| Frame.SealLengthEncoding | websocket.php:44-47 | up to 125 bytes the length sits in byte 1 and the payload follows at offset 2; from 126 to 65535, byte 1 is 126, bytes 2-3 hold the length in network order and the payload follows at offset 4 |
| Frame.Selector | websocket.php:20 | definition: the low seven bits of byte 1; its property is lemma `UnsealIgnoresFinOpcodeAndMaskBit` |
| Frame.Substr | websocket.php:22-31 | definition: PHP `substr`, empty once the start passes the end and cut short at the end; its properties are method `Unseal` and lemma `UnsealClientFrame` |
| Frame.Offsets | websocket.php:21-32 | the data starts four bytes after the key (126 → 4/8, 127 → 10/14, else 2/6) |
| Frame.Mask | websocket.php:34-35 | definition: data byte `i` combined with key byte `i mod 4`; its properties are lemmas `MaskInvolution` and `UnsealClientFrame` |
| Frame.Unsealed | websocket.php:19-38 | definition: the reference unmasking; its properties are `Unseal`, `MaskInvolution` and `UnsealClientFrame` |
| Frame.Unseal | websocket.php:19-38 | the loop yields the reference unmasking: the key and data offsets follow from the 7-bit selector alone (126 → 4/8, 127 → 10/14, else 2/6); every byte after the data offset is XORed with key byte `i mod 4`; the result length is the number of bytes after the data offset, or 0 |
| Frame.Xor | websocket.php:35 | definition: PHP `^` on two one-byte strings; its properties are lemmas `XorBits` and `XorInvolution` |
| Frame.XorBits | websocket.php:35 | the exclusive or of the low `width` bits of two numbers is itself a number of `width` bits, so the exclusive or of two bytes is a byte |
| Frame.XorBitsInvolution | websocket.php:35 | combining a `width`-bit number twice with the same key by exclusive or gives the number back |
| Frame.XorInvolution | websocket.php:35 | `(a ^ k) ^ k == a` for every two bytes |
| Frame.MaskInvolution | websocket.php:34-36 | unmasking a masked payload with the same key gives it back |
| Frame.UnsealIgnoresFinOpcodeAndMaskBit | websocket.php:20 | `unseal` reads only the low seven bits of byte 1: byte 0 and the MASK bit do not change its result |
| Frame.UnsealClientFrame | websocket.php:19-38 | for a client frame carrying `seal`'s length header with the MASK bit set, the key and the masked payload: the frame is masked, declares the payload's length, and `unseal` returns the payload |
| Handshake.SplitLines | websocket.php:55 | splitting yields at least one piece, and the first piece is a prefix of the request |
| Handshake.SplitLinesJoin | websocket.php:55 | joining the pieces with CRLF gives the request back |
| Handshake.SplitLinesHaveNoCrlf | websocket.php:55 | no piece contains CRLF |
| Handshake.SplitJoinLines | websocket.php:55 | lines without CR, joined with CRLF, split back into the same lines |
| Handshake.Chop | websocket.php:58 | the result is a prefix of the line that does not end in space, tab, LF, CR, NUL or VT, and only those characters were removed |
| Handshake.FirstSpace | websocket.php:59 | the index of the first PCRE white-space character, or the length when there is none; nothing before it is white space |
| Handshake.MatchHeader | websocket.php:59 | definition: the `\A(\S+): (.*)\z` match; its property is lemma `MatchHeaderIsHeaderLine` |
| Handshake.MatchHeaderIsHeaderLine | websocket.php:59 | the pattern matches with name `n` and value `v` exactly when the line is `n: v`, `n` is non-empty and has no white space, and `v` has no line feed |
| Handshake.Field | websocket.php:58-59 | definition: `chop`, then the header match; its properties are lemmas `HeadersOfKeys` and `HeadersOfLastWins` |
| Handshake.HeadersOf | websocket.php:54-63 | definition: the header dictionary; its properties are lemmas `HeadersOfKeys` and `HeadersOfLastWins` and method `ParseHeaders` |
| Handshake.HeadersOfKeys | websocket.php:56-63 | a name is in the dictionary exactly when some line declares it |
| Handshake.HeadersOfLastWins | websocket.php:61 | the value stored for a name is the one on the last line that declares it |
| Handshake.ParseHeaders | websocket.php:54-63 | the loop over the lines builds the header dictionary of the split request |
| Handshake.SecKey | websocket.php:65 | definition: the value stored under `Sec-WebSocket-Key`, or the empty string; its properties are lemmas `ReplyWithoutKey` and `ReplyWithKey` |
| Handshake.Response | websocket.php:67-72 | definition: the reply text; its properties are lemmas `ResponseLines` and `ResponseEndsWithBlankLine` |
| Handshake.Reply | websocket.php:53-72 | definition: the reply for a request; its properties are `DoHandshake`, `ReplyWithoutKey` and `ReplyWithKey` |
| Handshake.ResponseLines | websocket.php:67-72 | when host, port and accept value hold no CR, the reply is exactly the status line, five header lines and two empty pieces (the blank line that ends the head) |
| Handshake.ResponseEndsWithBlankLine | websocket.php:72 | the reply ends with CRLF CRLF |
| Handshake.DoHandshake | websocket.php:53-74 | the reply written to the new socket is the response for the digest of the request's key followed by the GUID |
| Handshake.ReplyWithoutKey | websocket.php:65-66 | with no `Sec-WebSocket-Key` line the accept value is the digest of the GUID alone |
| Handshake.ReplyWithKey | websocket.php:61-66 | when line `i` is the last to declare `Sec-WebSocket-Key: key`, the accept value is the digest of `key` followed by the GUID |
| Notices.SeparatorAt | websocket.php:92 | the index of the first ": " in a string, or its length; no ": " occurs before it |
| Notices.JoinedNotice | websocket.php:78-79 | definition: the "joined" notice; its property is lemma `JoinedRoundTrip` |
| Notices.LeftNotice | websocket.php:85-86 | definition: the "disconnected" notice; its property is lemma `LeftRoundTrip` |
| Notices.ChatBoxNotice | websocket.php:92-93 | definition: the chat-box notice; its property is lemma `ChatRoundTrip` |
| Notices.JoinedRoundTrip | websocket.php:78 | a "joined" message gives back its address and is never read as a departure |
| Notices.LeftRoundTrip | websocket.php:85 | a "disconnected" message gives back its address and is never read as an arrival |
| Notices.ChatRoundTrip | websocket.php:92 | a chat line gives back its user and text whenever the user name holds no ": " |
| Notices.NewConnectionAck | websocket.php:76-82 | the frame exists exactly when the JSON is under 65536 bytes, and then it carries exactly the JSON of the "joined" notice |
| Notices.ConnectionDisconnectAck | websocket.php:84-89 | the same for the "disconnected" notice |
| Notices.CreateChatBoxMessage | websocket.php:91-96 | the same for the chat-box notice `user: text` plus a line feed |
| Server.WellFormed | websocket.php:106-145 | definition: the shape `run` keeps, the listener at index 0 and no socket twice; its properties are lemma `PassKeepsShape` and method `Tick` |
| Server.FanOut | websocket.php:12-15 | definition: one write per entry; its property is lemma `FanOutReachesEveryEntry` |
| Server.FanOutReachesEveryEntry | websocket.php:10-17 | `send` writes the frame once to every entry of the list, the listener included, in list order |
| Server.Broadcast | websocket.php:10-17 | definition: `send` as a value, the list unchanged and `FanOut` of the list appended to the log; method `WebSocketServer.Send` makes the same update in place and lemma `FanOutReachesEveryEntry` states what it writes |
| Server.Selected | websocket.php:108-109 | a socket survives the selection exactly when it is in the list and readable; the order of the list is kept (lemma `SelectedSplits`) |
| Server.SelectedDistinct | websocket.php:108-109 | the selection of a list without repeats has no repeats |
| Server.SelectedSplits | websocket.php:108-109 | the selection keeps list order: selecting a list is selecting its first `n` entries followed by selecting the rest |
| Server.SelectedIndex | websocket.php:108-109 | a readable entry at index `q` sits in the selection right after the selection of the entries before it |
| Server.SelectedEarlier | websocket.php:108-109 | a readable entry before index `q` appears in the selection before the position of entry `q` |
| Server.Without | websocket.php:123-124 | definition: unset the first entry equal to the socket; its properties are lemmas `WithoutRemovesOneEntry` and `WithoutMembers` |
| Server.WithoutRemovesOneEntry | websocket.php:123-124 | removing a present socket deletes exactly one entry equal to it, the rest keeping their order; the first entry stays first unless it is the one removed |
| Server.WithoutMembers | websocket.php:142-143 | in a list without repeats, removal takes out exactly that socket and leaves no repeats |
| Server.Unset | websocket.php:142-143 | definition: `array_search` then `unset`; a miss unsets key 0; its properties are lemmas `UnsetMissDropsFirst` and `ScanRemovesOnlyFailedReads` |
| Server.UnsetMissDropsFirst | websocket.php:142-143 | when the search misses, the first entry (key 0) is removed and the others move up one place |
| Server.FindsEveryDeparture | websocket.php:137-143 | definition: at every failed read of the scan the socket is still listed, so `array_search` finds it; it is established by lemmas `ScanRemovesOnlyFailedReads` and `PassKeepsShape` |
| Server.Admit | websocket.php:111-122 | definition: the accept branch; its properties are lemmas `AdmitAppends` and `PassKeepsShape` and method `Accept` |
| Server.Relay | websocket.php:128-134 | definition: a message is unsealed, decoded and broadcast, and the pass ends; its property is method `Deliver` |
| Server.Depart | websocket.php:137-144 | definition: departure broadcast, then `Unset`; its property is method `Disconnect` |
| Server.Scan | websocket.php:127-145 | definition: the `foreach` over the snapshot; its properties are lemmas `ScanStopsAtFirstMessage`, `ScanHandlesFirstMessage`, `ScanRemovesOnlyFailedReads` and method `Visit` |
| Server.Snapshot | websocket.php:108-124 | definition: the selected list with the listener searched out; its property is lemma `SnapshotIsReadableClients` |
| Server.Opening | websocket.php:111-125 | definition: accept when the listener is readable; its property is lemma `AdmitAppends` |
| Server.Pass | websocket.php:107-145 | definition: one pass of the loop; its properties are lemmas `PassKeepsShape` and `PassServesFirstReadyClient` and method `Tick` |
| Server.AdmitAppends | websocket.php:113-116 | an accept appends the new socket as the last entry, and the next write is the handshake reply to it |
| Server.ScanStopsAtFirstMessage | websocket.php:127-135 | nothing after the first socket with data is visited: the pass ends with that message |
| Server.ScanHandlesFirstMessage | websocket.php:128-134 | a handled message comes from a socket of the snapshot that has data, and no socket before it had any |
| Server.ScanRemovesOnlyFailedReads | websocket.php:127-145 | for a snapshot of listed clients without the listener, the scan keeps the listener first and the list free of repeats; it adds nothing, removes only visited sockets that had no data and whose read failed, and every `array_search` of a departing socket finds it |
| Server.ScanIdleNoData | websocket.php:127-135 | a scan that ends without relaying a message and without halting visited no socket with data |
| Server.ScanAddsNothing | websocket.php:127-145 | every socket listed after the scan was listed before it |
| Server.UnsetKeepsOnlyListed | websocket.php:142-143 | `unset` never brings in a socket that was not listed |
| Server.ScanRemovesEveryFailedRead | websocket.php:137-144 | when the scan does not halt, every visited socket before the first message whose read failed is gone from the list |
| Server.PassKeepsShape | websocket.php:107-145 | a whole pass keeps the listener at index 0 and no socket twice, every `array_search` of a departing socket finds it, and a handled message comes from a client registered before the pass, never the listener |
| Server.SnapshotIsReadableClients | websocket.php:108-124 | the list the `foreach` walks is the readable clients after the listener, in list order; the listener was selected exactly when it is readable |
| Server.PassServesFirstReadyClient | websocket.php:108-134 | the message a pass handles comes from the first client in list order, after the listener, that is readable and has data; every readable client before it had none |
| Server.ClientOfSelection | websocket.php:108-109 | entry `k` of the selection is a readable client `q`, and when no earlier entry has data, no readable client before `q` has any |
| Server.PassIdleFoundNoData | websocket.php:127-135 | a pass that neither halts nor relays found no readable client with data; so whenever one has data waiting, the pass relays a message or halts |
| Server.PassRemovesFailedReads | websocket.php:137-144 | when the pass does not halt, every readable client whose read failed and that came, in list order, before the first client with data is gone from the list |
| Server.QuietPrefixOfSelection | websocket.php:108-109 | a readable client without data, with no data before it, sits at a position of the selection before which no entry has data |
| Server.WebSocketServer.constructor | websocket.php:106 | the list starts as the listener alone and nothing has been written |
| Server.WebSocketServer.Send | websocket.php:10-17 | the list is unchanged and one write per entry is appended, in list order |
| Server.WebSocketServer.Accept | websocket.php:111-122 | the new list and log are those of `Admit`: append, handshake reply, welcome broadcast, or a halt when sealing fails |
| Server.WebSocketServer.Disconnect | websocket.php:137-144 | the new list and log are those of `Depart`: departure broadcast to every entry, then removal |
| Server.WebSocketServer.Deliver | websocket.php:128-133 | the new list and log are those of `Relay`: the data is unsealed and decoded, and the chat line is sent to every entry; the pass reports the socket as handled, or halts when sealing fails |
| Server.WebSocketServer.Visit | websocket.php:127-145 | the loop over the snapshot yields the list, log and status of `Scan`: it stops at the first socket with data, removes each socket whose read fails, and skips the rest |
| Server.WebSocketServer.Tick | websocket.php:107-145 | one pass of the loop yields the list, log and status of `Pass`, keeps the listener first with no repeats, and handles only a message from a previously registered client |

## Left out

- Socket calls (`socket_create`, `socket_bind`, `socket_listen`, `socket_select`, `socket_accept`, `socket_read`, `socket_recv`, `socket_getpeername`, `socket_write`) are not executed. Their results for one pass are the fields of `Io`, and writes are logged in `outbox`. The 1024-byte read limit and the 10 µs select timeout are not modelled.
- The endless `while (true)` loop is modelled one pass at a time (`Tick`); `socket_close` after it is unreachable.
- SHA-1, `pack('H*')` and base64 are one parameter, `digest`. For that reason the test vector of section 1.3 of RFC 6455 is not proved.
- `json_encode` and `json_decode` are parameters. Reading `chat_user` and `chat_message` from a payload that is not a JSON object is not modelled.
- The script entry point is not modelled: the `$argv` defaults for host and port, `new WebSocketServer()` and `run()`. Host and port are `Env` fields.
- tests/WebsocketTest.php starts the script as a process and compares its output. It states no property of the core and is not part of this model.
- Frame.Seal: a payload of 65536 bytes or more yields `Err(PackTooFewArguments)`. `pack('CCNN')` is given one value for two `N` fields, so no header is produced, and the model invents no 64-bit layout. Depending on the PHP version this raises an error or returns `false`. The model treats it as an error that stops the server (`Halted`).
- Handshake.ReplyWithoutKey: the PHP notice raised by reading a missing `Sec-WebSocket-Key` index is not modelled; only the resulting empty key is.
- Handshake.HeadersOf: PHP arrays turn numeric-string keys into integers and keep insertion order. The model's dictionary is a map from string to string, so key order and numeric keys are not modelled.
- A `socket_accept` that returns `false` (websocket.php:112) is not modelled: `Io.accepted` is always a socket. In PHP 8 line 113 would then list `false` and `socket_read(false)` on line 115 would throw a `TypeError`.
- A `chat_user` or `chat_message` that decodes to an object is not modelled: the string concatenation on websocket.php:92 would throw and stop the server. A decoded array is covered, since it concatenates as the string `Array` (with a warning) and `chatFields` may return that string; `chatFields` returns two strings.
- Server.Unset: a search that misses unsets key 0 (the listener). The model states this case (`UnsetMissDropsFirst`) and proves it cannot happen within a pass (`FindsEveryDeparture`), but array keys are not renumbered by `unset` in PHP while the model's list closes the gap.
- Server.WebSocketServer.Accept and Server.WebSocketServer.Disconnect do not state `Valid()` on their own; they are steps of `Tick`, whose contract requires and ensures it.
- Frame.Unseal: the opcode, FIN bit, fragmentation and control frames (close, ping, pong) are not interpreted, as in the code.
- Sockets are plain numbers (`Handle`). Resource identity, and the array keys left behind by `unset`, are not modelled.
