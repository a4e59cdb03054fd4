# Learn_IPNetWeb core, modelled in Dafny

This project models the three parts of the Learn_IPNetWeb socket examples that hold real logic. Operating-system calls are inputs, and the logic around them is proved.

- **SimplePing** (`SimplePing/simple_ping.cpp`, the `__MACH__` branches). This is an ICMP echo client.
  - `CalcChecksum` is the Internet checksum of section 4.1 of RFC 1071.
  - `SendPing` builds an Echo Request (type 8, code 0; RFC 792, "Echo or Echo Reply Message") in a 1500-byte buffer.
  - `CheckPacket` validates an Echo Reply that sits behind an IPv4 header of `ip_hl * 4` bytes (section 3.1 of RFC 791). Its checks run in a fixed order, and each failure has its own reason code.
  - `RecvPing` retries while polling.
  - `PingCheck` sends `times` requests with sequence numbers 1, 2, … and returns the integer mean of the successful round-trip times.
- **Dual-stack UDP receiver** (`UdpSenderReciever/Unix/dual_udp_reciever.cpp`).
  - It opens one socket per resolved address, with IPV6_V6ONLY on IPv6 sockets (section 5.3 of RFC 3493), and keeps the sockets in a `std::map` keyed by descriptor.
  - It binds them all and polls a `pollfd` array built in map order.
  - The poll loop stops after 21 consecutive timeouts.
  - It records each sender in a per-socket, per-family registry where the first sighting wins.
- **Dual-stack TCP server** (`TcpServerClient/Unix/dual_tcp_server.cpp`).
  - Setup is the same, plus a `listen` loop whose failures are reported while the loop goes on. If the address lookup inside that report fails, it throws and the server stops before polling.
  - The poll loop never stops by itself, and its idle counter cycles from 0 to 20.
  - Each ready pass does one accept, one read, one write of a greeting and one close.

Layout, one module per file:

| file | module | contents |
|---|---|---|
| `checksum.dfy` | `InternetChecksum` | `CalcChecksum` over an array, proved against a word-sum specification; a word-by-word end-around-carry reference; the round trip through the checksum field |
| `ping.dfy` | `Ping` | the request builder, the reply validator, the receive loop and the ping driver. `RecvPing` and `PingCheck` are proved against recursive specification functions, and the request builder against the byte layout it writes |
| `fd_map.dfy` | `FdMap` | `std::map<int, V>` as an association list with strictly ascending keys (its iteration order) and `operator[]` assignment |
| `wrappers.dfy` | `Wrappers` | `Option` |
| `passive_sockets.dfy` | `PassiveSockets` | what both dual-stack programs share: the socket-creation loop and its specification `OpenAll`, the bind loop, the `pollfd` targets, first-POLLIN selection |
| `dual_udp.dfy` | `DualUdp` | class `DualUdpReceiver`, its poll loop proved against `UdpRun`, and the lemmas about counter and registry |
| `dual_tcp.dfy` | `DualTcp` | class `DualTcpServer`, its poll loop proved against `TcpRun`, and the lemmas about counter and connection cycles |

Modelling choices:

- **OS results are inputs.** Each of these is an input to the model:
  - each resolution entry's `socket()` result and `setsockopt()` result;
  - the sets of sockets that `bind` or `listen` fails on;
  - for the TCP server, the set of sockets whose address `getnameinfo` cannot print when `socket_address_error` reports a failed `listen`;
  - each `poll` return: a timeout, an EINTR failure, another failure, or the `revents` per slot;
  - what the calls after a ready `poll` return: the sender's family, `getnameinfo`'s result (absent when it fails and throws), and `accept`'s result;
  - for ping: whether the name resolves, what `sendto` returns, the receive buffer and the byte count, and the round-trip time.
- **The endless loops run over finite traces.** Each `while (true)` loop runs over a finite trace of such events. When the trace runs out, the exit is `StillRunning` / `StillWaiting` / `Blocked`.
- **Host byte order is little-endian.** That is macOS on x86-64 and arm64.
  - `CalcChecksum` reads and stores `u_short` in host order.
  - The identifier and the sequence number are big-endian (`htons`).
  - The checksum lemmas hold for either byte order.
- **Struct layout follows 64-bit macOS.** `sizeof(struct timeval)` is 16, and `ip_hl` is the low nibble of the first header byte.
- **Unsafe paths are exits.** When `poll` reports readiness but no slot has POLLIN, the selection loop ends with `index == num_targets`. The code then reads `targets[num_targets]` out of range. The model ends the loop there with the flagged exit `NoReadableSlot`; it does not repair it.
- **Throws skip the closing.** The intended design releases the sockets already opened when construction fails, and closes the whole set on any loop exit. The code does neither on its throw paths, and the model follows the code:
  - a failed `socket`, `setsockopt` or `bind` throws with every socket created so far still open (`SocketSet.created`);
  - in the TCP server, a failed lookup while reporting a failed `listen` throws with every socket still open;
  - a failed lookup or `accept` inside the loop throws and skips the close loop.

## Model

| member | source | states |
|---|---|---|
| InternetChecksum.CalcChecksum | SimplePing/simple_ping.cpp:27-61 | The answer fits in 16 bits. It is the complement of the twice-folded sum of the first `nbytes` bytes: 16-bit words in host order, plus a trailing odd byte (an empty sum for `nbytes <= 0`) |
| InternetChecksum.ChecksumIsComplementedOnesSum | SimplePing/simple_ping.cpp:38-58 | For any packet up to 131072 bytes and either byte order, the checksum fits in 16 bits. It equals 65535 minus the one's-complement sum of the words, added one word at a time with end-around carry (section 4.1 of RFC 1071) |
| InternetChecksum.OnesSumIsEndAround | SimplePing/simple_ping.cpp:38-56 | Adding word by word with end-around carry gives the plain sum reduced mod 65535, with nonzero multiples of 65535 giving 65535 |
| InternetChecksum.FoldIsEndAround | SimplePing/simple_ping.cpp:55-56 | The two folding steps turn any sum below 2^32 into its end-around-carry value |
| InternetChecksum.WordSumBound | SimplePing/simple_ping.cpp:38-52 | The sum of `n` bytes is at most 65535 per word, so the sum fits the folding's range |
| InternetChecksum.WordSumAppend | SimplePing/simple_ping.cpp:39-43 | Summing is additive across a word-aligned split |
| InternetChecksum.OddTrailingByte | SimplePing/simple_ping.cpp:47-52 | After an even-length prefix, an odd trailing byte adds one term: the byte zero-extended into the low-address half of a word, which is the byte's own value on a little-endian host |
| InternetChecksum.EvenTrailingPair | SimplePing/simple_ping.cpp:39-43 | After an even-length prefix, a final pair adds exactly one whole word and no extra term |
| InternetChecksum.Store16 | SimplePing/simple_ping.cpp:125 | The two bytes stored for a 16-bit value read back as that value in the given byte order |
| InternetChecksum.WithChecksum | SimplePing/simple_ping.cpp:125 | Writing the checksum field changes bytes 2-3 only, and they then hold the value |
| InternetChecksum.SplitAtChecksumField | SimplePing/simple_ping.cpp:39-43 | The word sum splits into the word at offset 0, the checksum field, and the rest |
| InternetChecksum.StoreAddsToSum | SimplePing/simple_ping.cpp:108-125 | Storing `c` into a zeroed checksum field adds exactly `c` to the word sum |
| InternetChecksum.ComplementCancels | SimplePing/simple_ping.cpp:55-58 | A one's-complement sum plus its complement folds to 65535 (negative zero) |
| InternetChecksum.ChecksumRoundTrip | SimplePing/simple_ping.cpp:108-125 | For either byte order: compute the checksum over a packet whose field is zero, write it at offset 2, and the recomputed checksum over the same bytes is 0 |
| Ping.FillRequest | SimplePing/simple_ping.cpp:108-124 | The zeroed buffer gets type 8, code 0, a zero checksum field, and id and seq big-endian. Bytes 8..len-1 are 0xA5, except that bytes 8..23 always hold the 16-byte timestamp, even where they lie past `len`. Every byte from `len` on outside 8..23 stays 0 |
| Ping.SendPing | SimplePing/simple_ping.cpp:64-141 | An unresolvable name gives -100 and nothing is sent. Otherwise what is sent is a `len`-byte Echo Request: the fields above, and a checksum field equal to the checksum of the packet with that field zero, so the whole packet checksums to 0. The result is 0 exactly when `sendto` reports `len` bytes, else -1000 |
| Ping.HeaderBytes | SimplePing/simple_ping.cpp:184 | The IPv4 header length `ip_hl * 4` is a multiple of 4 and at most 60 |
| Ping.CheckPacket | SimplePing/simple_ping.cpp:144-236 | The code is the first failing check, in source order: identifier mismatch 1, short packet -3000, not ECHOREPLY -3010, sequence mismatch -3030, a non-0xA5 byte after the timestamp up to `nbytes` -3040. It is 0 only when all pass |
| Ping.AcceptsEchoOfOwnRequest | SimplePing/simple_ping.cpp:193-225 | A buffer holding an IPv4 header and then our own request, echoed with type ECHOREPLY and all `len` bytes received, is accepted (0) |
| Ping.RejectsEchoOfOtherSequence | SimplePing/simple_ping.cpp:206-209 | The echo of our request with a different sequence number is rejected with -3030 |
| Ping.AcceptedReplyMatchesRequest | SimplePing/simple_ping.cpp:193-209 | An accepted reply carries the request's identifier and sequence bytes |
| Ping.RecvPing | SimplePing/simple_ping.cpp:238-329 | The outcome follows the poll trace's specification. The first timeout gives -2000 and the first non-EINTR failure -2010; EINTR retries; an accepted packet gives its round-trip time, an identifier mismatch past the deadline gives -2000, and anything else keeps waiting. It still waits exactly when no event decides |
| Ping.SkipsNonDecisive | SimplePing/simple_ping.cpp:304-326 | Events that do not decide (EINTR, packets rejected by a code other than 0 and 1, foreign packets in time) can be dropped from the front of the trace without changing the outcome |
| Ping.RecvCodes | SimplePing/simple_ping.cpp:264-310 | A returned code is -2000, -2010, or the round-trip time of a received packet that CheckPacket accepted |
| Ping.PingOnce | SimplePing/simple_ping.cpp:357-368 | One attempt hands `sendto` its Echo Request with sequence number `(i + 1) mod 65536`, or nothing when the name does not resolve. Its outcome is the receive loop's outcome when the send succeeded, and -1 otherwise |
| Ping.TallyNext | SimplePing/simple_ping.cpp:355-368 | After one more attempt, a still-waiting receive leaves the run stalled at that attempt for good. A non-negative result is added to the total and counted; any other result changes nothing |
| Ping.PingCheck | SimplePing/simple_ping.cpp:341-397 | -300 when the socket cannot be created. Otherwise attempt `i` sends a request with sequence number `(i + 1) mod 65536` (nothing when the name does not resolve), and the result is the integer mean of the non-negative receive results, or -1 if there are none. Exactly one request is logged per attempt made: `times` of them (none for a negative `times`), or up to and including the attempt whose receive is still waiting |
| Ping.StalledStaysStalled | SimplePing/simple_ping.cpp:355-378 | Once an attempt's receive is still waiting, no later attempt changes the outcome |
| Ping.TallyNonNegative | SimplePing/simple_ping.cpp:363-367 | Only non-negative results are added, so the total is never negative |
| Ping.TallyBounds | SimplePing/simple_ping.cpp:355-368 | If every successful round-trip time lies in `lo..hi`, the total lies between `count * lo` and `count * hi` |
| Ping.AverageBounds | SimplePing/simple_ping.cpp:389-396 | The integer mean of `count` values in `lo..hi` lies in `lo..hi` |
| Ping.PingResultRange | SimplePing/simple_ping.cpp:355-396 | PingCheck's mean is -1 or lies within the range of the successful round-trip times |
| FdMap.Put | UdpSenderReciever/Unix/dual_udp_reciever.cpp:171 | `map[k] = v` keeps the keys strictly ascending and leaves the map updated at `k` and otherwise unchanged. It grows by one exactly when `k` was absent |
| PassiveSockets.OpenAll | UdpSenderReciever/Unix/dual_udp_reciever.cpp:140-173 | The creation loop keeps the map ascending, and the descriptors created so far are only ever extended |
| PassiveSockets.OpenSockets | UdpSenderReciever/Unix/dual_udp_reciever.cpp:140-173 | The loop over the resolution entries produces exactly the socket set and the error of the creation-loop specification |
| PassiveSockets.OpenAllSucceedsIff | UdpSenderReciever/Unix/dual_udp_reciever.cpp:148-166 | Construction passes the creation loop exactly when every `socket()` succeeds and every IPv6 socket's `setsockopt` succeeds. Otherwise it throws before any bind or poll |
| PassiveSockets.OpenAllSetsV6Only | UdpSenderReciever/Unix/dual_udp_reciever.cpp:155-171 | Every IPv6 socket in the map had IPV6_V6ONLY set before it was registered |
| PassiveSockets.OpenAllRegisters | UdpSenderReciever/Unix/dual_udp_reciever.cpp:169-171 | After a successful loop, the map's keys are exactly the descriptors returned. Each maps to its entry's address and `ai_addrlen`; if a descriptor repeats, the last entry wins |
| PassiveSockets.OpenAllKeepsUntouched | UdpSenderReciever/Unix/dual_udp_reciever.cpp:171 | An entry for a descriptor that no resolution entry returns is kept unchanged |
| PassiveSockets.FirstWhere | UdpSenderReciever/Unix/dual_udp_reciever.cpp:280-286 | The first position satisfying the test, or the length when there is none; no earlier position satisfies it |
| PassiveSockets.FirstFailingBind | UdpSenderReciever/Unix/dual_udp_reciever.cpp:178-197 | No failure exactly when no socket's bind fails. Otherwise the failure is the first failing socket in map order |
| PassiveSockets.MakeTargets | UdpSenderReciever/Unix/dual_udp_reciever.cpp:201-218 | The zeroing and filling loops produce, in a fresh array, one slot per map entry in map order, watching POLLIN \| POLLERR with no events reported |
| PassiveSockets.TargetsFollowMap | UdpSenderReciever/Unix/dual_udp_reciever.cpp:201-218 | The targets' descriptors strictly ascend, and they are exactly the map's keys, each watched for POLLIN \| POLLERR |
| PassiveSockets.SelectReady | UdpSenderReciever/Unix/dual_udp_reciever.cpp:280-286 | The index of the lowest slot with POLLIN. When no slot has POLLIN it is `num_targets`, one past the end |
| DualUdp.Register | UdpSenderReciever/Unix/dual_udp_reciever.cpp:315-336 | Registration adds the socket's map if it was absent and knows the host afterwards. Entries already there are never overwritten, a new host maps to this sender, and every other socket's map is unchanged |
| DualUdp.UdpRun | UdpSenderReciever/Unix/dual_udp_reciever.cpp:222-337 | Over a whole trace, the loop keeps the number of targets and each slot's descriptor and interest |
| DualUdp.DualUdpReceiver.MakeSockets | UdpSenderReciever/Unix/dual_udp_reciever.cpp:140-173 | The receiver's socket map, its V6ONLY set and its created descriptors become those of the creation-loop specification |
| DualUdp.DualUdpReceiver.Serve | UdpSenderReciever/Unix/dual_udp_reciever.cpp:219-337 | The poll loop leaves the targets and both registries as the loop's specification says, and exits as it says. The socket map is untouched |
| DualUdp.DualUdpReceiver.OnReady | UdpSenderReciever/Unix/dual_udp_reciever.cpp:279-336 | One ready pass does what one step of the specification does, in place |
| DualUdp.DualUdpReceiver.RegisterSender | UdpSenderReciever/Unix/dual_udp_reciever.cpp:315-336 | The registry of the sender's family becomes the registered one, and the other family's registry is unchanged |
| DualUdp.DualUdpReceiver.CloseAll | UdpSenderReciever/Unix/dual_udp_reciever.cpp:340-343 | Every socket of the map is closed once, in map order, which is ascending descriptor order |
| DualUdp.RunReceiver | UdpSenderReciever/Unix/dual_udp_reciever.cpp:123-349 | A socket, setsockopt or bind failure throws before any polling: no registry entry and no close. A failing bind is reported at the first failing socket in map order. Setup fails exactly in these cases, so otherwise the loop runs: the registries are those of the loop's specification, and every socket is closed exactly when the loop leaves by `break` (idle shutdown or a poll error) |
| DualUdp.TimeoutsCountUp | UdpSenderReciever/Unix/dual_udp_reciever.cpp:230-249 | Each timeout while the counter is below 20 increments it and the loop goes on |
| DualUdp.IdleShutdownOnTimeoutRun | UdpSenderReciever/Unix/dual_udp_reciever.cpp:227-262 | From a count `c` in 0..20, the loop exits on the (21 - c)-th consecutive timeout, whatever follows. From a fresh count that is the 21st |
| DualUdp.FewerTimeoutsKeepRunning | UdpSenderReciever/Unix/dual_udp_reciever.cpp:230-249 | Fewer consecutive timeouts leave the loop running with the count raised by their number |
| DualUdp.IdleStaysBounded | UdpSenderReciever/Unix/dual_udp_reciever.cpp:227-262 | The counter never leaves 0..20, so the reset branch (a count above 20) is never taken |
| DualUdp.TimeoutNeverResets | UdpSenderReciever/Unix/dual_udp_reciever.cpp:250-259 | With the counter in 0..20, a timeout either increments it or exits; it never resets it |
| DualUdp.InterruptedPollIsRetried | UdpSenderReciever/Unix/dual_udp_reciever.cpp:264-271 | An EINTR failure returns to polling with the counter and everything else unchanged |
| DualUdp.OtherPollFailureExits | UdpSenderReciever/Unix/dual_udp_reciever.cpp:272-276 | Any other poll failure exits the loop in the state it found |
| DualUdp.ReadyStep | UdpSenderReciever/Unix/dual_udp_reciever.cpp:280-336 | A ready return resets the counter to 0. It exits as NoReadableSlot exactly when no slot has POLLIN. Otherwise the sender goes in the registry of its address family under the lowest readable slot's socket, and the other family's registry is unchanged; a failed lookup exits |
| DualUdp.RegistryEntriesPersist | UdpSenderReciever/Unix/dual_udp_reciever.cpp:315-336 | First sighting wins over a whole run: a registered sender stays registered with the same information, in both registries |
| DualTcp.Greeting | TcpServerClient/Unix/dual_tcp_server.cpp:316-320 | What is written is the formatted greeting as far as the 1500-byte buffer holds it: a prefix of it, at most 1499 characters, and all of it when it fits |
| DualTcp.GreetingNamesServer | TcpServerClient/Unix/dual_tcp_server.cpp:317-319 | A greeting that fits reads "message from server ", then the server's numeric host, ", port=", the numeric port and a newline |
| DualTcp.TcpRun | TcpServerClient/Unix/dual_tcp_server.cpp:232-324 | Over a whole trace, the loop keeps the number of targets and each slot's descriptor and interest |
| DualTcp.ListenFailuresMembers | TcpServerClient/Unix/dual_tcp_server.cpp:190-204 | The reported sockets are exactly the map's keys whose `listen` fails |
| DualTcp.ListenFailuresAscend | TcpServerClient/Unix/dual_tcp_server.cpp:190-204 | The failures are reported in ascending descriptor order |
| DualTcp.FirstThrow | TcpServerClient/Unix/dual_tcp_server.cpp:50-61 | The position of the first socket in map order whose `listen` fails and whose address lookup fails, and so whose report throws. No earlier socket is such; the map's length when there is none |
| DualTcp.DualTcpServer.MakeSockets | TcpServerClient/Unix/dual_tcp_server.cpp:130-163 | The server's socket map, V6ONLY set and created descriptors become those of the creation-loop specification |
| DualTcp.DualTcpServer.ListenSockets | TcpServerClient/Unix/dual_tcp_server.cpp:190-204 | The sockets get a `listen` in map order. A failure is reported and the loop goes on, until a report's lookup fails and throws at that socket. The reported sockets are exactly the failing ones before that point, in ascending order |
| DualTcp.DualTcpServer.Serve | TcpServerClient/Unix/dual_tcp_server.cpp:232-324 | The poll loop leaves the targets and the call log as the loop's specification says, and exits as it says. The socket map is untouched |
| DualTcp.DualTcpServer.OnReady | TcpServerClient/Unix/dual_tcp_server.cpp:271-323 | One ready pass does what one step of the specification does, in place |
| DualTcp.DualTcpServer.CloseAll | TcpServerClient/Unix/dual_tcp_server.cpp:327-330 | Every passive socket is closed once, in map order |
| DualTcp.RunServer | TcpServerClient/Unix/dual_tcp_server.cpp:113-336 | A socket, setsockopt or bind failure throws before any listen or poll: no call logged and nothing closed. A failing bind is reported at the first failing socket in map order, and setup fails exactly in these cases. Listen failures are reported in ascending order. A failed lookup in that report throws before any poll, with nothing logged or closed, and at exactly the first such socket. Otherwise the call log is the loop's, followed by a close of every passive socket exactly when the loop leaves by `break` (a poll error) |
| DualTcp.TimeoutsCountUp | TcpServerClient/Unix/dual_tcp_server.cpp:241-246 | Each timeout while the counter is below 20 increments it |
| DualTcp.TimeoutsCycle | TcpServerClient/Unix/dual_tcp_server.cpp:238-254 | From any count in 0..20, 21 consecutive timeouts bring the loop back to the state it was in: the counter cycles with period 21 |
| DualTcp.TimeoutsNeverStop | TcpServerClient/Unix/dual_tcp_server.cpp:238-254 | Timeouts alone never end the loop |
| DualTcp.IdleStaysBounded | TcpServerClient/Unix/dual_tcp_server.cpp:238-254 | The counter never leaves 0..20 |
| DualTcp.InterruptedPollIsRetried | TcpServerClient/Unix/dual_tcp_server.cpp:256-263 | An EINTR failure returns to polling with everything unchanged |
| DualTcp.OtherPollFailureExits | TcpServerClient/Unix/dual_tcp_server.cpp:264-268 | Any other poll failure exits the loop in the state it found |
| DualTcp.ReadyStep | TcpServerClient/Unix/dual_tcp_server.cpp:271-323 | A ready return keeps the counter. It exits as NoReadableSlot exactly when no slot has POLLIN. Otherwise there is exactly one `accept`, on the lowest readable slot's socket, then one read, one write of the greeting and one close, all on the new connection. A failed server lookup makes no call; a failed `accept` or client lookup exits right after the `accept` |
| DualTcp.StepKeepsCycles | TcpServerClient/Unix/dual_tcp_server.cpp:271-323 | One pass keeps the watched descriptors. A pass that goes on appends exactly one complete accept-read-write-close cycle on a watched passive socket, or nothing |
| DualTcp.RunServesWholeCycles | TcpServerClient/Unix/dual_tcp_server.cpp:280-323 | Unless the loop ends by a throw, the call log is made of complete cycles on watched passive sockets: each accepted connection is read from, written to and closed |
| DualTcp.LoopNeverClosesPassive | TcpServerClient/Unix/dual_tcp_server.cpp:280-323 | When `accept` never returns a watched descriptor, no passive socket is closed inside the loop, however it ends |

## Left out

- Name resolution (`getaddrinfo`, `inet_addr`, `gethostbyname`) is outside the model. The dual-stack programs start from the resolved entries: a failed `getaddrinfo`, which throws before any socket is created, is not modelled. Ping starts from a flag saying whether the name resolved.
- `getnameinfo` is an input: its result, or nothing when it fails and `get_host_info` throws. Inside `socket_address_error` it is modelled only on the TCP `listen` path, the one caller that goes on after the report. Every other caller throws right after the report, so there a failed lookup changes only the exception's message.
- Printing is left out:
  - every `printf`, `cerr` and `fflush`;
  - the `*`/`\b` progress output and its digit-count loop;
  - the `sizeof` prints;
  - the TCP `listen` path's `ret == EADDRINUSE` test, which compares `listen`'s return value (0 or -1) with an errno value, so it never holds and only prints.
- Floating point is left out. `diff` and its `%.2f` print are not modelled. `Received.rttMs` stands for `int(diff * 1000.0)`, and `Received.late` stands for the comparison `diff > timeout_sec * 1000`, which compares seconds with milliseconds as written.
- Clocks and the TTL are left out:
  - `gettimeofday` is an input: the send timestamp is 16 opaque bytes;
  - CheckPacket's copy of the received timestamp back into `sendtime` is not modelled;
  - the TTL it reports is not modelled.
- Sleeping (`sleep(1)` in PingCheck, `sleep(250)` in the TCP server) and the closing of the ping socket are not modelled, because they change no modelled state.
- Data contents are left out. The received UDP payload, the bytes the TCP server reads, and `recvfrom`/`read`/`write` return values do not influence control flow and are not modelled. For the UDP receiver, the sender's address family is the event's `sender`.
- `map_udp_sockets[passive_socket]` / `map_tcp_sockets[passive_socket]` inside the loop is `operator[]` on a key that is present. It only supplies the address buffer for `recvfrom`/`getnameinfo`, which are inputs here.
- Outside a `Ready` event, the targets array is not changed by `poll` in the model. The code never reads `revents` on those paths.
- InternetChecksum.ChecksumIsComplementedOnesSum: this lemma, and the round trip built on it, requires at most 131072 bytes. Beyond that the `long` sum could need a third fold. SendPing's packets are at most 1500 bytes. `CalcChecksum` itself is proved for any `nbytes`, with unbounded integers.
- Ping.PingCheck: does not model overflow of the `int` counters `total` and `total_no`, because the model's integers are unbounded.
- Throwing is modelled as an exit; the top-level `try`/`catch` only prints. The empty Linux and Windows branches of the `#if` blocks are not modelled.
- The greeting assumes that the numeric host and service strings contain no NUL character, as C strings from `getnameinfo` do not.
