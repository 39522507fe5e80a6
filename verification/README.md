# Verification of the tunnel's control programs

A Dafny model of the user-space programs that control the ICMP tunnel, and proofs about it:

- **the command server and client** (`tuctl-server`, `tuctl-client`): packet framing and padding, the sliding replay
  window, the concurrent `process_packet` tasks as a stepped protocol over an unconstrained network, the client's retry
  loop, and what the two guarantee together;
- **the rate limiter** of the server: the token bucket with lazy refill and idle eviction, over whole runs of calls by
  any peers;
- **the control tool** (`ktuctl-rs`): its configuration commands as transitions on the kernel's tables, the invariant
  between the client tables, the dump as a script that rebuilds the tables, the user map, the key, comment and address
  conversions;
- **the generic-netlink layer** of the control tool: the byte codec and the receive loops over reply datagrams.

`dafny verify dfyconfig.toml` checks everything.

| file | part |
|---|---|
| `Ints.dfy`, `Net.dfy`, `Text.dfy`, `Wrappers.dfy` | machine integers and their bytes, addresses, text and decimals, `Option` and `Result` |
| `Replay.dfy`, `Packet.dfy`, `Server.dfy`, `Capacity.dfy`, `Client.dfy`, `OwnPackets.dfy`, `EndToEnd.dfy`, `Replies.dfy` | the command protocol |
| `Limiter.dfy`, `Throughput.dfy` | the rate limiter, and the server behind it |
| `UidMap.dfy`, `Helper.dfy`, `Commands.dfy`, `CommandResults.dfy`, `DumpScript.dfy`, `ScriptRuns.dfy`, `RoundTrip.dfy` | the control tool |
| `Netlink.dfy`, `Deliveries.dfy` | the netlink layer |
| `Assumptions.dfy` | models of the hypotheses below: they can be met |

## How it is modelled

Code that updates state is a class or a method with a loop (`ReplayWindow`, `AsyncRateLimiter`, `UidMap`, `Ktuctl`, the
codec and receive loops, the argument loops, the client's retry loop), proved against a specification function on
values. The theorems are about these functions. Concurrent tasks are a state machine whose steps are the locked blocks
and the actions between them; every sequence of enabled steps is a run, so a theorem over all runs is one over all
interleavings.

Assumptions, all of them parameters or explicit hypotheses:

- **Network.** Any bytes may be received at any time. No theorem about executions needs the cipher to be
  unforgeable: at-most-once is stated over all packets that open.
- **Cryptography.** Key derivation, sealing and opening are arbitrary functions under `Inverting` (opening inverts
  sealing, a 16-byte tag); only `FramingCanonical` also uses `Authentic`. Salts, nonces and random bytes are arbitrary
  inputs, so nonces may even repeat.
- **Clock.** Non-decreasing whole seconds in `0 .. 2^62` (`ClockRange`). Timestamps in packets are arbitrary `i64`
  values. Arithmetic on `i64` wraps, as in a build without overflow checks. This makes one timestamp special at each
  instant: a packet stamped exactly `2^63` seconds before the clock passes the window test and is forgotten at once, so
  it can be executed twice (`WrappedTimestampIsForgotten`, `WrappedPacketRunsTwice`). Such timestamps are below `-2^62`
  (`Ancient`). Ancient packets do not affect what is proved of the others, and the client's theorems hold for all.
- **Capacity.** `WithinCapacity(window, n, additions)`: at most `n` additions in any closed span of twice the window.
- **Limiter.** Instants and tokens are reals; instants do not decrease. `Patient` is `burst <= rate * (idle + 1)`, which
  the server's 10, 5, 60 satisfy, and which `EvictionUnobservableExactly` and `RateBoundExactly` show to be needed.
- **Kernel.** Three keyed tables and the configuration, obeying the insertion flags of `ktuctl-rs/src/config.rs:37-39`. Each
  call may be refused, lost, or carried out with its acknowledgement lost (`Luck`). Commands run one at a time. Within a
  script every call is answered (`CALM`); that is what the dump and script theorems are about.
- **Libraries.** Shell splitting, name lookup, address printing and lossy UTF-8 are parameters under `Honest`: safe
  words split as they were joined, an address literal resolves to the address it shows, ASCII text is unchanged.
  Strings are their UTF-8 bytes, one character per byte; white space is ASCII.
- **Orders that the code does not fix** (iteration of the hash map, the kernel's listing order) are parameters, and the
  theorems hold for every order.
- **Machine.** Native-endian fields are little-endian.

## Model

| member | source | states |
|---|---|---|
| Replay.ReplayWindow.ReplayCheck | tuctl-server/src/main.rs:136-152 | prunes the queue in place only when the timestamp passes the window test, and answers whether the pair is timely and absent from the retained entries |
| Replay.ReplayWindow.ReplayAdd | tuctl-server/src/main.rs:154-159 | appends the pair and keeps the newest `max_size` entries |
| Replay.WindowTestExact | tuctl-server/src/main.rs:139-141 | in wrapping `i64` arithmetic the test means abs(now - ts) <= window for every timestamp but `now - 2^63`, at which it passes |
| Replay.WrappedTimestampIsForgotten | tuctl-server/src/main.rs:139-159 | at that timestamp a pair just added is accepted again |
| Replay.LiveExact | tuctl-server/src/main.rs:143 | retention means `ts + window >= now` if and only if that sum stays below `2^63` |
| Replay.PruningDropsOnlyExpired | tuctl-server/src/main.rs:139-143 | an entry dropped by expiry can pass the window test, now or later, exactly at the clock `2^63` seconds after its timestamp, where the test wraps |
| Replay.RetainMember | tuctl-server/src/main.rs:143 | `retain` keeps exactly the live members |
| Replay.AcceptedAgainAfterEviction | tuctl-server/src/main.rs:136-159 | a recorded pair is accepted again only after at least `max_size` further additions |
| Replay.EvictionBoundIsExact | tuctl-server/src/main.rs:145-159 | among timely additions the queue refuses a pair exactly when it is among the last `max_size`, so that bound is exact |
| Replay.AdmittedIsNew | tuctl-server/src/main.rs:136-159 | with at most `max_size` additions in any closed span of twice the window, what is admitted was never added before |
| Replay.QueueRefinesHistory | tuctl-server/src/main.rs:136-159 | with that capacity the pruned, bounded queue decides as an unbounded history: timely and never added; this holds if and only if the timestamp is not `now - 2^63` |
| Replay.WindowAdd | tuctl-server/src/main.rs:154-159 | adding an admitted packet, whatever its timestamp, or one's own packet keeps the invariant that ties the queue to the history of additions and separates repeated pairs |
| Replay.WindowPruned | tuctl-server/src/main.rs:143 | pruning keeps that invariant |
| Packet.EncryptPacket | tuctl-server/src/main.rs:240-276 | the buffer grown field by field is salt, big-endian timestamp, nonce and the text sealed under salt and timestamp |
| Packet.PacketLayout | tuctl-server/src/main.rs:240-276 | the packet byte by byte: salt at 0, the time from 16 with its most significant byte first, nonce at 24, and from 48 the payload sealed under all that stands before the nonce |
| Packet.OpenedFields | tuctl-server/src/main.rs:278-314 | when a packet opens and to what, told from its bytes: at least 64 of them, and the bytes from 48 open under the key of the first 16, the nonce and the first 24 |
| Ints.BigEndianByte | tuctl-server/src/main.rs:257 | each byte of the time by its weight |
| Packet.StampInverse | tuctl-server/src/main.rs:257-294 | the timestamp bytes decode to the timestamp, negative ones included |
| Packet.FramingRoundTrip | tuctl-server/src/main.rs:240-314 | decryption inverts encryption: payload, nonce and timestamp return, and the packet is 64 bytes longer than its payload |
| Packet.FramingCanonical | tuctl-server/src/main.rs:278-314 | under an authentic cipher a packet opens exactly when it is byte for byte a framing of what it opens to |
| Packet.RemovePadding | tuctl-server/src/main.rs:108-112 | the popping loop computes the text without its trailing run of `#` |
| Packet.TrimHashSplits | tuctl-client/src/main.rs:285-292 | what is left is the longest prefix not ending in `#`, and only `#` was dropped |
| Packet.BuildPaddedCmd | tuctl-client/src/main.rs:479-493 | the script followed by the chosen number of `#`, for every random byte |
| Packet.PadResponse | tuctl-server/src/main.rs:422-433 | the response followed by the chosen number of `#`; the pushed and popped zero byte leaves no trace |
| Packet.CommandOutput | tuctl-server/src/main.rs:230-237 | the output is a prefix of standard output followed by standard error, as long as the payload limit lets it be |
| Packet.PaddingInverse | tuctl-client/src/main.rs:285-493 | removing the padding of a command or a response gives the text without its own trailing `#` run, which is the text itself exactly when it does not end in `#` |
| Packet.PaddedLength | tuctl-server/src/main.rs:422-428 | both paddings add the random length as far as the total stays below the payload limit |
| Packet.CommandPacketFits | tuctl-client/src/main.rs:379-407 | a script's packet is received untruncated exactly when the script is within the payload limit |
| Packet.ResponsePacketFits | tuctl-server/src/main.rs:422-450 | every response packet is received untruncated |
| Server.Admit | tuctl-server/src/main.rs:382-405 | the locked block on the shared window does what the check step of the protocol says, for the queue and for the task |
| Server.SealResponse | tuctl-server/src/main.rs:422-443 | padding and sealing a response give what the sealing step of the protocol says; `Server.SealedPadded` says what that step leaves |
| Server.SealedPadded | tuctl-server/src/main.rs:422-443 | the sealing step fails only where no key can be derived; its packet opens, under the given nonce and the step's time, to the output and behind it `#` only, as many as the random byte says while the whole stays below the payload limit, and none if the output has 4094 bytes or more; nothing else changes |
| Server.ExecutedOutput | tuctl-server/src/main.rs:225-237 | an execution is recorded with the pair and command of its packet; its output is standard output followed by standard error, whole or cut at the payload limit; a command that could not be run ends the task |
| Server.RegisterResponse | tuctl-server/src/main.rs:445-448 | the second locked block records the response's pair as the protocol says |
| Server.StepKeepsWindow | tuctl-server/src/main.rs:382-448 | every step of every task keeps the queue in line with the history of additions |
| Server.StepKeepsTasks | tuctl-server/src/main.rs:382-453 | every step keeps, for each task, what its stage promises: its pair is recorded before it runs, and a response's pair before it is sent |
| Server.StepKeepsExecs | tuctl-server/src/main.rs:405-420 | every execution belongs to one task, carries the command of that task's packet without padding, and was admitted by an addition of its own |
| Server.RunKeepsInv | tuctl-server/src/main.rs:374-453 | these invariants hold after every run, whatever packets arrive |
| Server.ReexecutionNeedsEviction | tuctl-server/src/main.rs:374-453 | in every run, if one (timestamp, nonce) pair that is not ancient is executed twice, at least `max_size` additions lie between the two acceptances, all within twice the window |
| Server.AtMostOnce | tuctl-server/src/main.rs:374-453 | in every run with at most `max_size + 1` additions in any closed span of twice the window, no pair is executed twice but an ancient one |
| Server.SelfExecutionNeedsEviction | tuctl-server/src/main.rs:437-452 | in every run, a packet the server emitted itself is executed only after `max_size` further additions within twice the window, hence never with that capacity |
| OwnPackets.NeverSelfExactly | tuctl-server/src/main.rs:437-452 | the server executes no packet of its own, in every run with at most `n` additions in any closed span of twice the window, if and only if `n <= max_size + 1` |
| Server.AdmissionExact | tuctl-server/src/main.rs:382-400 | with at most `max_size` additions in any such span, a waiting packet is admitted exactly when it opens, is timely and was never recorded in the whole run; this holds if and only if it is not stamped `2^63` seconds before the clock |
| Capacity.AtMostOnceExactly | tuctl-server/src/main.rs:136-159 | for a packet that opens and any capacity `n`: its pair is executed at most once in every run with at most `n` additions in any closed span of twice the window, if and only if `n <= 1`, or the timestamp is at least `-2^62` and `n <= max_size + 1` or no clock finds it timely |
| Capacity.FloodedPacketRunsTwice | tuctl-server/src/main.rs:136-159 | a run with `max_size + 2` additions, `max_size` other timely packets in between, executes a packet twice |
| Capacity.WrappedPacketRunsTwice | tuctl-server/src/main.rs:139-159 | a run executes a packet stamped `2^63` seconds before the clock twice, with two additions in all |
| Capacity.ExecutedWhen | tuctl-server/src/main.rs:139-141 | an executed pair was admitted by a clock that found its timestamp timely, or exactly `2^63` seconds behind |
| Server.EmittedAnswers | tuctl-server/src/main.rs:414-452 | every packet the server emits opens to the output of the execution by the task that sent it, followed by at most 255 times `#` and nothing else |
| Client.RunLoop | tuctl-client/src/main.rs:507-609 | the retry loop refines the stepped protocol: its packets, its window and its result are those of a run; it goes on exactly while passes time out and retries are left |
| Client.OnePass | tuctl-client/src/main.rs:519-606 | one pass of the loop is a sequence of protocol moves, and asks for another pass exactly when it timed out with retries left |
| Client.Validate | tuctl-client/src/main.rs:421-472 | the reply is checked against the window before it is opened, recorded after, and shown without padding |
| Client.TransmittedPadded | tuctl-client/src/main.rs:369-493 | a transmission fails where no key can be derived or the socket refuses; otherwise one packet more is out, which opens, under the given nonce and time, to the script and behind it `#` only, as many as the random byte says while the whole stays below the payload limit |
| Client.ReplyTakenExactly | tuctl-client/src/main.rs:421-472 | within capacity a waiting client takes a datagram for the reply exactly when it opens, is timely, and has the pair of none of the packets sent, else it fails; this holds if and only if it is not stamped `2^63` seconds before the clock |
| Client.PlaySound | tuctl-client/src/main.rs:507-609 | after every run the stage fixes how many packets are out and recorded, each packet carries the script, and an accepted reply repeats a request's pair only past the capacity |
| Client.RetryBound | tuctl-client/src/main.rs:567-583 | a run sends at most `max_retries + 1` packets, each carrying the script and stamped by the clock |
| Client.RunEnds | tuctl-client/src/main.rs:519-606 | every move but the clock's lowers a measure bounded by the retries left |
| Client.NeverAcceptsOwnRequest | tuctl-client/src/main.rs:409-470 | the accepted reply is none of the packets the run sent, if the retries fit the window's capacity or the additions stay within it |
| OwnPackets.NeverOwnRequestExactly | tuctl-client/src/main.rs:409-470 | no run with at most `n` additions in any such span takes one of its requests for the reply, if and only if `n <= 1025`, or fewer than 1024 retries are asked for, or the script does not fit a packet |
| Client.DoneShowsReply | tuctl-client/src/main.rs:591-605 | what a finished run shows is the reply's payload without padding |
| EndToEnd.ScriptExecutionBound | tuctl-client/src/main.rs:519-583 | for every client run and every server run with at most `max_size + 1` additions in any closed span of twice the window, the client's packets are executed at most `max_retries + 1` times in all, each time with the script |
| EndToEnd.AtMostOnePerPacket | tuctl-server/src/main.rs:382-414 | if only ancient pairs repeat, the executions of `n` packets that are not ancient number at most `n` |
| EndToEnd.ReplyIsOutput | tuctl-client/src/main.rs:591-605 | a reply that the server sent shows the output of the execution by the task that sent it |
| EndToEnd.ReplyIsOwnOutput | tuctl-client/src/main.rs:591-605 | if that task had received one of the client's packets, it is the output of the client's own script |
| Replies.AnswerTakenFromOther | tuctl-client/src/main.rs:421-472 | otherwise it need not be: a pair of runs in which the server answers only another client, with any output, and the client shows that output |
| Replies.RequestTakenAsReply | tuctl-client/src/main.rs:421-472 | a run in which the client takes another client's request for the reply and shows its script |
| Limiter.AsyncRateLimiter.Allow | tuctl-server/src/main.rs:341-371 | sweeping, refilling, clamping and spending in place give the specified decision and buckets |
| Limiter.StateSettled | tuctl-server/src/main.rs:354-369 | between calls tokens lie between zero and the burst, and the last refill is the last sighting |
| Limiter.EvictedWasFull | tuctl-server/src/main.rs:345-346 | with seconds floored, a forgotten bucket would have been full again |
| Limiter.EvictionUnobservable | tuctl-server/src/main.rs:341-371 | over every run the limiter answers as one that never forgets, when `burst <= rate * (idle + 1)` |
| Limiter.EvictionUnobservableExactly | tuctl-server/src/main.rs:341-371 | for all parameters this holds over all runs if and only if that inequality does or the burst is below one token |
| Limiter.KeepingConforms | tuctl-server/src/main.rs:354-370 | the token bucket without eviction is exactly the sliding budget, for all parameters |
| Limiter.AllowedExactlyWithinBudget | tuctl-server/src/main.rs:354-370 | a call is allowed if and only if, counted from each earlier call of the peer, burst plus earned credit less what was allowed since leaves at least one |
| Limiter.RateBound | tuctl-server/src/main.rs:341-371 | in any interval, with any peers interleaved, a peer is allowed at most `burst + rate * length` packets |
| Limiter.RateBoundExactly | tuctl-server/src/main.rs:341-371 | for all parameters this bound holds over all runs if and only if the same condition does |
| Limiter.ServerRateBound | tuctl-server/src/main.rs:478 | that bound for the server's own parameters |
| Limiter.PeerIsolation | tuctl-server/src/main.rs:341-371 | each answer to a peer is that of a limiter fed only this peer's calls, for all parameters |
| Limiter.SpacedCallsAllowed | tuctl-server/src/main.rs:354-370 | a peer whose calls are at least `1 / rate` apart is never denied, for all eviction times |
| Throughput.StepKeepsOwners | tuctl-server/src/main.rs:382-448 | every step keeps that a task adds at most twice: its packet's pair, then its response's |
| Throughput.CapacityFromRate | tuctl-server/src/main.rs:374-510 | with `n` peers behind the limiter and every addition within `delay` seconds of its packet's arrival, at most `2 * n * (burst + rate * (2 * window + 1 + delay))` additions fall in any closed span of twice the window |
| Throughput.PromptServerRunsOnce | tuctl-server/src/main.rs:374-510 | if that is below `max_size + 2`, no pair is executed twice but an ancient one: at-most-once without a hypothesis on the additions |
| Throughput.DefaultServerRunsOnce | tuctl-server/src/main.rs:19-20 | so it is with the default settings for one peer and tasks that take at most 39 seconds |
| UidMap.UidMap.Load | ktuctl-rs/src/uid_map.rs:20-70 | after the loop over the lines an id has a name exactly when the last line whose text names the id names it so; a file that does not exist leaves the old names |
| UidMap.UidMap.GetUid | ktuctl-rs/src/uid_map.rs:76-83 | the search returns the first id with the name in the iteration order |
| UidMap.UidOfFinds | ktuctl-rs/src/uid_map.rs:76-83 | the search finds an id that has the name, and fails only if none has |
| UidMap.NameIdentifies | ktuctl-rs/src/uid_map.rs:72-83 | the name of an id leads back to the id in every iteration order, each id once, exactly when no other id has it |
| UidMap.LoadedIsLastEntry | ktuctl-rs/src/uid_map.rs:29-68 | an id has a name exactly when the last line that makes an entry for it gives this name |
| UidMap.LineEntryExact | ktuctl-rs/src/uid_map.rs:30-57 | a line makes an entry exactly when it is white space, a number up to 255, white space, the name, and then nothing or something that white space or `#` begins; the entry is that number and that name |
| UidMap.LoadedExactly | ktuctl-rs/src/uid_map.rs:20-70 | an id is loaded with a name exactly when the last line whose text names the id names it so |
| UidMap.PlainLineMakes | ktuctl-rs/src/uid_map.rs:30-57 | a printed id, a space and a name make the entry they say, whatever white space or comment follows |
| UidMap.LoadedNamesAreWords | ktuctl-rs/src/uid_map.rs:31-57 | every loaded name is one non-empty word without `#`, whatever the file holds |
| Helper.Swap16Twice | ktuctl-rs/src/helper.rs:22-28 | byte-order conversion is its own inverse and maps only zero to zero |
| Helper.Swap16Bytes | ktuctl-rs/src/helper.rs:22-28 | the two bytes change places |
| Helper.ParseXorKey | ktuctl-rs/src/helper.rs:126-143 | fills the front of the key array with the decoded bytes and leaves the rest, or fails with the source's error; at a byte outside ASCII, where the source panics, with `NotUtf8` |
| Helper.FormatXorKey | ktuctl-rs/src/helper.rs:145-151 | the loop prints the used bytes as hexadecimal |
| Helper.HexBytesAt | ktuctl-rs/src/helper.rs:134-140 | each parsed byte is made of its two digits, the high half first |
| Helper.HexOfAt | ktuctl-rs/src/helper.rs:145-151 | each printed byte is two digits, the high half first |
| Helper.XorBytesFails | ktuctl-rs/src/helper.rs:126-139 | what is refused and why: the length before the digits, and of the digits the first bad one decides |
| Text.HexDigitsAre | ktuctl-rs/src/helper.rs:135-148 | which characters are digits, and of which value |
| Helper.XorFormatParse | ktuctl-rs/src/helper.rs:126-151 | parsing a formatted key of 1 to 64 bytes restores its bytes |
| Helper.XorParseFormat | ktuctl-rs/src/helper.rs:126-151 | parsing succeeds exactly on 2 to 128 hexadecimal digits, even in number; formatting the result gives the text in lower case |
| Helper.CopyComment | ktuctl-rs/src/helper.rs:119-124 | the field holds the first 22 bytes of the text and zeros behind |
| Helper.CopiedBytes | ktuctl-rs/src/helper.rs:119-124 | the field byte by byte |
| Helper.CommentKeepsText | ktuctl-rs/src/helper.rs:106-124 | a text survives the comment field exactly when it has at most 22 bytes and no NUL |
| Helper.CommentFieldCanonical | ktuctl-rs/src/helper.rs:106-124 | a field is what copying its own text makes exactly when only NULs follow its first NUL |
| Helper.UserReadsBackExactly | ktuctl-rs/src/helper.rs:30-63 | a dumped user resolves back to its id in every iteration order, each id once, exactly when the word printed names no other id |
| Helper.ResolveUidExact | ktuctl-rs/src/helper.rs:30-38 | a word that names users stands for one of them, any other word for the number up to 255 that it is, and no other word for a user |
| Helper.DumpedUserText | ktuctl-rs/src/helper.rs:40-63 | a dump shows the name of a user that has one, unless ids are asked for |
| Helper.ResolveIpExact | ktuctl-rs/src/helper.rs:65-96 | a text stands for the first answer of the lookup that the requested family admits; no answer and no admitted answer fail differently |
| Helper.AddrReadsBack | ktuctl-rs/src/helper.rs:65-104 | a printed address resolves back to itself exactly outside ::/96 and within the requested family |
| Net.ShownReadBack | ktuctl-rs/src/helper.rs:84-104 | the byte mapping behind it: showing and reading back is the identity exactly outside ::/96 |
| Net.ShownExact | ktuctl-rs/src/helper.rs:98-104 | an address is shown as its last four bytes exactly when ten zeros and two equal bytes, 0 or 255, stand before them |
| Net.ToAddrBytes | ktuctl-rs/src/helper.rs:84-95 | the 16 bytes of an address of either family |
| Text.DecRoundTrip | ktuctl-rs/src/commands.rs:131 | a printed integer within the range parses back to itself |
| Text.ParseDecExact | ktuctl-rs/src/commands.rs:131 | exactly the texts of one or more digits, with one `+` before them or none, whose digits read from the front stay within the range are numbers, and that is their value |
| Text.SplitExact | ktuctl-rs/src/commands.rs:673 | splitting gives the one list of pieces that hold no separator and give the text back with separators between them |
| Commands.ScanArgs | ktuctl-rs/src/commands.rs:117-159 | the index loop over the arguments computes the specified scan |
| Commands.ScanExact | ktuctl-rs/src/commands.rs:117-159 | the argument loops accept exactly the lists in which every known keyword has a readable value, skip other words, and take the last value of each keyword |
| CommandResults.KeywordsExact | ktuctl-rs/src/commands.rs:117-381 | the words each command knows, and what they stand for |
| Commands.Ktuctl.ClientAddCmd | ktuctl-rs/src/commands.rs:109-234 | the method refines the specified command; `CommandResults.ClientAddExactly` says what that does |
| Commands.Ktuctl.ClientDelCmd | ktuctl-rs/src/commands.rs:236-318 | deletes the last dumped egress entry of the user at the address, then the ingress entry, whose failure is ignored |
| Commands.Ktuctl.ServerModeCmd | ktuctl-rs/src/commands.rs:78-96 | sets server mode with the last `max-age` given, 60 without one |
| Commands.Ktuctl.ClientModeCmd | ktuctl-rs/src/commands.rs:98-107 | sets client mode |
| Commands.Ktuctl.ServerAddCmd | ktuctl-rs/src/commands.rs:320-433 | the method refines the specified command; `CommandResults.ServerAddExactly` says what that does |
| Commands.Ktuctl.ServerDelCmd | ktuctl-rs/src/commands.rs:435-479 | deletes the user entry |
| CommandResults.ClientAddExactly | ktuctl-rs/src/commands.rs:109-234 | `client-add` changes nothing and fails unless every known keyword has a readable value, address, port and user are given, the kernel is in client mode, the address resolves and the key is empty or 2 to 128 hexadecimal digits, even in number; then it writes the ingress entry if its key is free, and once that is acknowledged the egress entry, with the fields given byte by byte; it succeeds if and only if both are acknowledged |
| CommandResults.ServerAddExactly | ktuctl-rs/src/commands.rs:320-433 | the same conditions in server mode; then the user's entry is written, whatever was there, and the command succeeds if and only if that is acknowledged |
| CommandResults.ClientDelExactly | ktuctl-rs/src/commands.rs:236-318 | `client-del` changes nothing and fails unless its arguments give an address that resolves and a user; then it deletes the last listed egress entry of the user at the address, if any, and once that is acknowledged the ingress entry, whose own failure does not count |
| CommandResults.ServerDelExactly | ktuctl-rs/src/commands.rs:435-479 | `server-del` removes the user given and no other, and succeeds if and only if the user was there and the deletion is acknowledged |
| CommandResults.ModeExactly | ktuctl-rs/src/commands.rs:78-107 | `server` sets server mode with the last value after `max-age`, 60 without one, and fails without change if one of them is no number; `client` sets client mode and age 0; the tables stay |
| CommandResults.KeyOfExact | ktuctl-rs/src/commands.rs:172-176 | which key texts are taken, and the stored key byte by byte |
| CommandResults.ResolveRefuses | ktuctl-rs/src/commands.rs:161-176 | the checks of an adding command in their order, each with its error |
| CommandResults.LastMatchExact | ktuctl-rs/src/commands.rs:270-275 | the entry to delete is the last one listed of the user at the address |
| Commands.AddPeerKeepsPaired | ktuctl-rs/src/commands.rs:178-219 | an addition keeps the egress and ingress tables paired, wherever it fails |
| Commands.DropPeerKeepsPaired | ktuctl-rs/src/commands.rs:269-310 | so does a deletion, although it deletes at most one egress entry |
| Commands.CommandKeepsPaired | ktuctl-rs/src/commands.rs:78-479 | every command keeps the invariant: each egress entry has an ingress entry with the same key, its port mirrored and not zero |
| Commands.HistoryKeepsPaired | ktuctl-rs/src/commands.rs:78-479 | so does every history of commands, each with its own settings and luck |
| Commands.AtMostOnePeer | ktuctl-rs/src/commands.rs:161-219 | hence a user has at most one egress entry at an address |
| Commands.DeletionLeavesNone | ktuctl-rs/src/commands.rs:269-317 | a successful deletion leaves no egress entry of the user at the address, and no ingress entry if its last call was served |
| Commands.DeleteUndoesAdd | ktuctl-rs/src/commands.rs:195-310 | deleting a peer just added restores both tables exactly when its address and port were free before |
| Commands.CalmFailureChangesNothing | ktuctl-rs/src/commands.rs:78-479 | when the kernel answers every call, a command that fails has changed nothing |
| Commands.RetriedAddition | ktuctl-rs/src/commands.rs:212-219 | after a failed addition, however it failed, the same addition succeeds exactly when the failed one left no trace and its ingress key was free |
| Commands.AdditionAfterDeletion | ktuctl-rs/src/commands.rs:195-310 | after deleting the peer the addition always succeeds |
| Commands.ClientDelUndoesClientAdd | ktuctl-rs/src/commands.rs:109-318 | on arguments that resolve to the same user and address, `client-del` after `client-add` restores both tables exactly when the address and port were free before |
| Commands.RetriedClientAdd | ktuctl-rs/src/commands.rs:109-234 | a `client-add` that failed, however, succeeds when repeated exactly when it left no trace and its ingress key was free |
| Commands.ClientAddAfterClientDel | ktuctl-rs/src/commands.rs:109-318 | after `client-del` of the same user and address, `client-add` always succeeds |
| DumpScript.RunCommand | ktuctl-rs/src/commands.rs:685-713 | the dispatch on the command word; `load`, `unload`, `status` and `dump` succeed or fail as a parameter says and leave the tables alone |
| DumpScript.CmdScript | ktuctl-rs/src/commands.rs:654-727 | the loop over the lines refines the specified run; `ScriptRuns.ScriptRunsAll` says what that runs |
| DumpScript.RunLineOf | ktuctl-rs/src/commands.rs:673-724 | the pieces between semicolons, split and dispatched in order |
| ScriptRuns.ScriptRunsAll | ktuctl-rs/src/commands.rs:654-727 | for lines that are blank, comments, or commands of safe words with semicolons between them: the script runs exactly these commands, in order, up to the first failure |
| ScriptRuns.LineRunsAll | ktuctl-rs/src/commands.rs:666-724 | so does each line |
| ScriptRuns.TwoCommands | ktuctl-rs/src/commands.rs:673-724 | of two commands on a line the second runs on the result of the first, if that succeeded |
| ScriptRuns.PieceExact | ktuctl-rs/src/commands.rs:675-716 | a piece between semicolons is skipped if it has no text or no word, fails if it cannot be split, and else is dispatched |
| ScriptRuns.PiecesInOrder | ktuctl-rs/src/commands.rs:673-724 | the pieces of any line run in order, up to the first failure |
| ScriptRuns.DispatchTable | ktuctl-rs/src/commands.rs:685-713 | the six words that change tables and their commands; no other word changes anything |
| DumpScript.CmdDump | ktuctl-rs/src/commands.rs:594-647 | the printed lines: head, mode, and one line for each listed entry with a port |
| DumpScript.DumpPeers | ktuctl-rs/src/commands.rs:626-643 | a line for each egress entry with a non-zero port, in listing order |
| DumpScript.DumpUsers | ktuctl-rs/src/commands.rs:603-623 | a line for each user, in listing order |
| ScriptRuns.PeersListed | ktuctl-rs/src/commands.rs:626-643 | the lines of a client's dump are those of exactly the listed entries with a non-zero port, in their order |
| ScriptRuns.UsersListed | ktuctl-rs/src/commands.rs:603-623 | the lines of a server's dump are those of all listed users, in their order |
| DumpScript.PeerLineAdds | ktuctl-rs/src/commands.rs:626-643 | running the printed line of an entry in client mode adds exactly that entry |
| DumpScript.PeerLineDoes | ktuctl-rs/src/commands.rs:626-643 | running the line of an entry with a readable comment adds what its words resolve to, or fails without change if its user or its address cannot be resolved |
| DumpScript.UserLineSets | ktuctl-rs/src/commands.rs:603-623 | running the printed line of a user in server mode sets exactly that user, or fails without change if the user has no port |
| DumpScript.UserLineDoes | ktuctl-rs/src/commands.rs:603-623 | running the line of a user with a readable comment sets what its words resolve to, or fails without change |
| DumpScript.NextPeerRebuilds | ktuctl-rs/src/commands.rs:195-219 | for a paired table each insertion of the rebuilding succeeds, because its ingress key is still new |
| DumpScript.ScriptOfDumpRestoresClient | ktuctl-rs/src/commands.rs:594-727 | from empty tables the dump of a client, run as a script, succeeds on every line, restores egress, and restores of ingress exactly the entries that mirror an egress entry, in whatever order the kernel lists them |
| DumpScript.ScriptOfDumpRestoresServer | ktuctl-rs/src/commands.rs:594-727 | from an empty table the dump of a server of restorable users succeeds exactly when every user has a port, and then restores the user table and the session age |
| DumpScript.HistoryKeepsFilled | ktuctl-rs/src/commands.rs:172-175 | after every history of commands each stored key is its used bytes and zeros behind, and every user has a port |
| DumpScript.DumpOfHistoryRestoresClient | ktuctl-rs/src/commands.rs:109-727 | after any history of commands on empty tables, failed ones included, the client's dump rebuilds what the history built, as long as names, addresses and comments can be read back |
| DumpScript.DumpOfHistoryRestoresServer | ktuctl-rs/src/commands.rs:320-727 | so does the server's, succeeding on every line |
| DumpScript.CommentReadBackExactly | ktuctl-rs/src/commands.rs:142-148 | in the arguments of either adding command, a comment of safe words without quotes is read back exactly when it is a single word |
| RoundTrip.PeerLineExact | ktuctl-rs/src/commands.rs:625-643 | running the printed line of an entry of safe words, where its keys are free, stores that entry if and only if its name, its address and its comment can be read back |
| RoundTrip.UserLineExact | ktuctl-rs/src/commands.rs:602-623 | running the printed line of a user of safe words, where the id is free, sets that user alone if and only if it has a port and its name, address and comment can be read back |
| RoundTrip.ClientAddStores | ktuctl-rs/src/commands.rs:178-219 | an addition on safe words stores one entry, whose comment is one word at most, or nothing |
| RoundTrip.ClientDumpRestoredExactly | ktuctl-rs/src/commands.rs:594-727 | for paired client tables of safe words, running the dump from empty tables succeeds and restores the egress table if and only if every entry's name, address and comment can be read back |
| RoundTrip.ServerDumpRestoredExactly | ktuctl-rs/src/commands.rs:594-727 | for a user table of safe words, running the dump from an empty table succeeds and restores the table if and only if every line can be run and read back, and the users' words stand for users with equal entries, each for another one |
| RoundTrip.NamedServerDumpRestoredExactly | ktuctl-rs/src/commands.rs:594-727 | when the dump shows names, that is so if and only if every user has a port and its name, address and comment can be read back |
| RoundTrip.NumericNamesMaySwap | ktuctl-rs/src/helper.rs:30-63 | when the dump shows ids, two users with equal entries, each named by the other's id, exchange places: each id resolves to the other, neither is restorable, and running the dump restores the table |
| Netlink.Align | ktuctl-rs/src/netlink.rs:610-616 | the least multiple of four that is not below |
| Netlink.PushNlattr | ktuctl-rs/src/netlink.rs:91-111 | appends header, payload and zero padding to the buffer |
| Deliveries.AttrLayout | ktuctl-rs/src/netlink.rs:91-111 | an attribute byte by byte: length, type, payload, and zeros up to the next multiple of four |
| Netlink.ParseAttrsLoop | ktuctl-rs/src/netlink.rs:167-184 | the slicing loop computes the specified parse, on all bytes |
| Netlink.AttrsRoundTrip | ktuctl-rs/src/netlink.rs:91-184 | parsing an encoded attribute list gives it back exactly when every payload has at most 65531 bytes |
| Netlink.ParsedSlices | ktuctl-rs/src/netlink.rs:167-184 | on arbitrary bytes each parsed attribute is a slice of the input behind its own header, and begins no earlier than the one before it ends |
| Netlink.ParseStable | ktuctl-rs/src/netlink.rs:91-184 | encoding what was parsed and parsing again changes nothing |
| Netlink.BuildPacketGenlMsg | ktuctl-rs/src/netlink.rs:113-147 | the grown buffers are the specified encoding |
| Deliveries.RequestLayout | ktuctl-rs/src/netlink.rs:113-147 | a request byte by byte: length, type, flags, sequence number and port id at 0, 4, 6, 8 and 12, command, version and two zeros from 16, attributes from 20 |
| Ints.LittleEndian | ktuctl-rs/src/netlink.rs:131-136 | the fields have their least significant byte first |
| Netlink.HeaderRoundTrip | ktuctl-rs/src/netlink.rs:151-157 | a message header is read back from its bytes at any offset |
| Netlink.RequestRoundTrip | ktuctl-rs/src/netlink.rs:113-184 | a built message parses back to its type, flags, sequence number, sender, command and version, and to its attributes exactly when these fit; its length is a multiple of four and is what the length field says exactly below 2^32 |
| Netlink.ReceiveLoop | ktuctl-rs/src/netlink.rs:493-537 | the loop over datagrams computes the specified walk |
| Netlink.WalkDatagram | ktuctl-rs/src/netlink.rs:497-536 | the loop over the messages of a datagram, ending by the bytes that remain |
| Netlink.VisitMessage | ktuctl-rs/src/netlink.rs:437-464 | the verdict on one message: error, acknowledgement, end, short message or data |
| Netlink.VisitAttrs | ktuctl-rs/src/netlink.rs:525-531 | the loop over the attributes of a data message refines the specified verdict; `Deliveries.MatchingPicks` and `Deliveries.FirstMatchingExact` say what that is |
| Deliveries.MatchingPicks | ktuctl-rs/src/netlink.rs:525-531 | a dump takes exactly the attributes of its type whose payload has at least the size asked for, in order, each cut to that size |
| Deliveries.FirstMatchingExact | ktuctl-rs/src/netlink.rs:453-462 | a fetch takes the first attribute of its type, cut to size, or fails if that one is too short, and goes on if there is none |
| Deliveries.RefusedWhenShort | ktuctl-rs/src/netlink.rs:186-190 | exactly results under 20 bytes, data without room for a generic header, and data with room for it only in the next message are refused as such |
| Netlink.RoomMattersOnlyWhenShort | ktuctl-rs/src/netlink.rs:519-523 | what follows a message in its datagram changes its verdict exactly when it is a data message too short for the generic header |
| Netlink.GroupingIrrelevant | ktuctl-rs/src/netlink.rs:493-537 | for a well-formed stream the outcome of the receive loops does not depend on how messages are grouped into datagrams |
| Netlink.VisitReply | ktuctl-rs/src/netlink.rs:512-533 | an encoded reply closes the walk, or adds what the specification collects from it |
| Netlink.StreamMeaning | ktuctl-rs/src/netlink.rs:493-537 | a stream of messages means what the replies to this request say up to the first closing one; other replies do not show |
| Netlink.DatagramsMeaning | ktuctl-rs/src/netlink.rs:493-537 | so does every grouping of it into datagrams; the three members below say what is delivered |
| Deliveries.DumpDeliversExactly | ktuctl-rs/src/netlink.rs:493-537 | however the replies are grouped, a dump delivers exactly the attributes of its type, at least as large as asked for, of the replies to this request before the one that ends it, in order and cut to size; it ends well at the end of the listing, with the code at an error, and waits if there is neither |
| Deliveries.FetchGivesExactly | ktuctl-rs/src/netlink.rs:421-468 | a fetch gives the first attribute of its type, cut to size, of the first reply that has one, unless that is too short or an error or the end of a listing comes before it |
| Deliveries.AckEndsExactly | ktuctl-rs/src/netlink.rs:298-328 | an acknowledged request delivers nothing and ends at the first result, well or with its code, or at the end of a listing |
| Assumptions.CryptoExists | tuctl-server/src/main.rs:252-267 | the hypotheses on the cipher can be met |
| Assumptions.LibraryExists | ktuctl-rs/src/commands.rs:680 | the hypotheses on the libraries can be met |
| Assumptions.ListingExists | ktuctl-rs/src/commands.rs:626 | the hypothesis on the kernel's listings can be met |

## Left out

- Sockets, the asynchronous runtime, child processes, environment variables, standard input and files: they appear only as step and pass parameters (received bytes, failures, outputs, lines).
- The internals of the password hash and of the cipher, and the randomness of salts, nonces and paddings.
- The rate limiter in front of the tasks is not a step of the server's protocol, which admits every packet; `Throughput.dfy` joins the two by saying which calls the tasks come from.
- The five seconds that a client waits before a retry: a timeout may come at any time.
- Kernel calls that fail inside a script: there every call is answered.
- Overflow checks of debug builds, which would panic at the wrapped timestamp; the negation of an error code of least `i32` value; the wrap-around of the netlink sequence counter.
- Rounding of the limiter's floating-point tokens and seconds; clocks that step back.
- Shell quoting beyond safe words, Unicode white space and invalid UTF-8 in names, comments and scripts; DNS answers beyond the list the lookup returns.
- The kernel module itself, and control-tool processes running at the same time: the table invariant is per command.
- What `status`, `load`, `unload` and `version` print and do to interfaces, logging, usage texts and command-line parsing: in a script the first three and `dump` leave the tables alone and may fail, as a parameter says.
- `resolve_genl_family_id`, `send_string` and `dump_strings`, which repeat the walk already modelled with other handlers, and a handler that fails in the middle of a dump.
- The C layout of the kernel structures: entries are values, and only the byte order of ports, the key and the comment field are kept.
- Read errors in the middle of the user map file or of a script.
- The exit codes and messages of the client; its name resolution and address family choice count as one more way for a pass to fail.
- ScriptOfDumpRestoresClient: one way, from entries that can be read back; `ClientDumpRestoredExactly` is the exact statement.
- ScriptOfDumpRestoresServer: exact in the ports alone; `ServerDumpRestoredExactly` is the exact statement.
- RoundTrip.ClientDumpRestoredExactly: for names that are single words of plain characters and comments of such words; what the shell splitter does with quotes and other special characters is not modelled.
- Helper.ParseXorKey: a byte outside ASCII is an error here; in the source it is a panic that ends the process.
