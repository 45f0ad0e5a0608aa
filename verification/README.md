# latency_lab shared-memory ping, modelled in Dafny

latency_lab measures round-trip latency over several transports. This project models
three sequential parts of its shared-memory path:

- **The single-slot mailbox of `src/shmem_lab.rs`.** A region starts with an 8-byte turn
  word. Only two values of that word are turns: `STATE_READY_TO_WRITE = 2` and
  `STATE_READY_TO_READ = 3`. One payload slot follows the word. `open_shmem` runs an
  initialisation loop that settles the word. `ShmemSender::send` spins until it is the
  writer's turn, stores the payload and hands over the turn. `ShmemReceiver::receive`
  does the same for the reader. Module `Handshake` (handshake.dfy).
- **The envelope of `src/shmem_ping.rs`.** It writes a 4-byte little-endian length and
  the serialized message into the channel's `MESSAGE_SHMEM_SIZE`-byte window, and reads
  them back out. Module `Envelope` (envelope.dfy).
- **The stream framing helpers of `examples/loopback_latency.rs`.** These are
  `write_u32_le` / `read_u32_le` and `write_message` / `read_message`. Module `Framing`
  (framing.dfy).
- **Support modules.** Module `Ping` (ping.dfy) composes the parts into one `ping` round
  trip over the loopback stream, and one over the pair of shared-memory channels served
  by `examples/shmem_ping_server.rs`. Modules `Types` and `LittleEndian` hold the integer
  widths and the byte-order codec.

How the model represents the concurrent parts:

- **Channel.** A channel is the immutable value `Channel(state, slot)`. The slot always
  holds some value, because it is raw memory.
- **Waiting for a turn.** A wait is described by what one side observes. `polls[i]` is
  the value returned by the i-th load of the turn word. A bounded timeout is
  `Val(checks)`: the first `checks` deadline checks find time left, and the next one finds
  the deadline passed. The spin count is the number of failed polls.
- **Send and receive.** `Send` and `Receive` take two things: the values seen by the
  failed polls (`earlier`), and the channel as the deciding poll finds it. The other
  process may run between polls.
- **Initialisation.** The loop runs against a list of passes. Each pass has the value its
  load returned and the value the word held when its compare-exchange ran.
- **Interleavings.** `Run` models any interleaving of single-poll send and receive
  attempts as a pure function.

## Behaviour of the source worth knowing

- `src/shmem_lab.rs` defines no `begin`/`end` window API, although `src/shmem_ping.rs`
  calls one (src/shmem_ping.rs:17-22, 29-42). Writing the window between `begin` and
  `end` is modelled as the `send`/`receive` transition, with the rewritten window as the
  value.
- An oversized payload or an out-of-range stored length is a slice-index panic
  (src/shmem_ping.rs:21, 39); the model returns `None`.
- Any payload of up to `MESSAGE_SHMEM_SIZE - 4` bytes fits in the envelope, including the
  empty one.
- Any turn word other than 2 or 3 is uninitialised (src/shmem_lab.rs:131-138).
- `src/shmem_ping.rs` imports `read_u32_le` / `write_u32_le` from `src/utils.rs`, which is
  not part of this model. They are taken to behave like the copies in
  `examples/loopback_latency.rs`.

## Model

| member | source | states |
|---|---|---|
| LittleEndian.U32ToLe | examples/loopback_latency.rs:177-178 | the encoding of a u32 is its four base-256 digits, least significant first (`to_le_bytes`), and they decode back to the value |
| LittleEndian.U32FromLe | examples/loopback_latency.rs:171-174 | four bytes read as `b0 + 256 b1 + 65536 b2 + 16777216 b3` (`from_le_bytes`); re-encoding the value gives the same four bytes |
| LittleEndian.FromLeToLe | examples/loopback_latency.rs:171-180 | decoding the n-byte little-endian encoding of any value below 256^n returns that value |
| LittleEndian.ToLeFromLe | examples/loopback_latency.rs:171-180 | encoding the value of a byte string back into the same number of bytes returns that byte string |
| LittleEndian.ToLeByte | examples/loopback_latency.rs:177-178 | byte i of the encoding is digit i of the value in base 256 |
| Handshake.Attach | src/shmem_lab.rs:121-127 | the turn word is the first 8 bytes of the region and the data window is everything from offset 8; the two views put back together are the region |
| Handshake.AttachRegionBytes | src/shmem_lab.rs:121-127 | attaching to the bytes of a (turn word, data) pair recovers that pair |
| Handshake.InitState | src/shmem_lab.rs:131-138 | an uncontended initialisation always leaves a turn value, and leaves the word unchanged exactly when it already held one. Any other word becomes READY_TO_WRITE (2) |
| Handshake.InitLoop | src/shmem_lab.rs:128-141 | the loop stops at the first pass that loads 2 or 3, or whose compare-exchange finds the value it loaded. It leaves a turn value. It keeps a loaded turn value unchanged. It stores READY_TO_WRITE only through a compare-exchange that succeeded. An uncontended first pass decides it |
| Handshake.Open | src/shmem_lab.rs:112-147 | when no other process opens the region meanwhile: after opening, the turn word holds 2 or 3 and the data window is the region from offset 8. The region is untouched exactly when its word already held a turn value; otherwise the word becomes READY_TO_WRITE. The contended case is InitLoop's |
| Handshake.SpinWait | src/shmem_lab.rs:49-58 | success reports as spin count the index of the first poll that saw the wanted turn, which is no later than the deadline allows. A timeout happens exactly when every poll up to the deadline missed the turn |
| Handshake.Send | src/shmem_lab.rs:82-100 | send succeeds exactly when the deciding poll sees READY_TO_WRITE. It then stores the value, sets READY_TO_READ and reports the number of failed polls. A timeout (bounded waits only) leaves state and slot unchanged |
| Handshake.Receive | src/shmem_lab.rs:44-64 | receive succeeds exactly when the deciding poll sees READY_TO_READ. It then returns exactly the stored value, sets READY_TO_WRITE and reports the number of failed polls. A timeout leaves state and slot unchanged |
| Handshake.Exchange | src/shmem_lab.rs:44-100 | when sends and receives strictly alternate, the receiver gets exactly the values sent, in order, and the channel ends in the writer's turn |
| Handshake.Attempt | src/shmem_lab.rs:44-100 | a single-poll attempt completes exactly when it is the caller's turn. A completed send stores its value and a completed receive yields the slot, each flipping the turn. An attempt that is not its turn changes nothing |
| Handshake.Run | src/shmem_lab.rs:44-100 | in any interleaving of single-poll send and receive attempts, there are at most as many completed operations as attempts, and a run in which nothing completes leaves the channel unchanged. The slot holds the payload of the last completed operation. The turn word stays a turn value and ends on the side the number of completed operations implies. A first attempt made on its turn completes, and if it is a send it stores that attempt's value |
| Handshake.RunAlternates | src/shmem_lab.rs:44-100 | the completed operations of any run strictly alternate starting from the current turn, and each receive yields the payload of the send just before it (the first receive yields the slot's current payload) |
| Handshake.RunSendsFrom | src/shmem_lab.rs:89-98 | every completed send of a run stores the value of one of the send attempts: nothing is invented |
| Handshake.RunOnTurnCompletes | src/shmem_lab.rs:44-100 | when every attempt is made on its side's turn, every attempt completes, and the i-th operation stores the i-th attempt's value when it is a send |
| Handshake.RunAppend | src/shmem_lab.rs:44-100 | each attempt acts on the channel the attempts before it left behind: a run extended by one attempt is the run followed by that single attempt |
| Handshake.LateAttemptOnTurnCompletes | src/shmem_lab.rs:44-100 | an attempt made on the turn a run has reached completes, even after attempts that timed out. The earlier events are kept, a send stores its value, and a receive yields the slot |
| Handshake.SecondSendWaits | src/shmem_lab.rs:89-98 | a second send before the first payload is received times out and leaves the first payload in the slot |
| Handshake.TimeoutThenDelivery | src/shmem_lab.rs:51-62 | a receive that times out in the writer's turn changes nothing, and a following send is delivered to the next receive |
| Envelope.WindowFitsRegion | src/shmem_ping.rs:11 | the 32768-byte envelope window fits in the data window of a default-size region |
| Envelope.ChannelOf | src/shmem_lab.rs:59-61 | the payload a sender or receiver moves is the window-sized byte array at offset 8 of the region, guarded by the region's turn word |
| Envelope.OpenedChannelUsable | src/shmem_lab.rs:40-41 | opening a default-size region yields a channel whose word holds a turn value and whose slot is a full window: bytes [8, 8 + 32768) of the region |
| Envelope.EncodeInto | src/shmem_ping.rs:20-21 | writing succeeds exactly when length + 4 fits in the window. Bytes [0,4) then hold the length, bytes [4, len+4) hold the payload, and later bytes are unchanged |
| Envelope.DecodeFrom | src/shmem_ping.rs:36-39 | reading succeeds exactly when the stored length + 4 fits in the window, and returns as many bytes as the stored length says |
| Envelope.EnvelopeRoundTrip | src/shmem_ping.rs:20-39 | reading an envelope written over any window returns the payload, for every payload of up to MESSAGE_SHMEM_SIZE - 4 bytes |
| Envelope.DecodedWindowReencodes | src/shmem_ping.rs:20-39 | a window that reads successfully is exactly the envelope of what it reads to |
| Envelope.PingSend | src/shmem_ping.rs:13-26 | sending succeeds exactly when the payload fits. The channel is then in the reader's turn, its window reads back to the payload with bytes past it unchanged, and the spin count is recorded |
| Envelope.PingReceive | src/shmem_ping.rs:28-44 | receiving succeeds exactly when the stored length fits. It yields the window's decoded payload, hands the turn back with the window unchanged, and records the spin count |
| Envelope.PingHopDelivers | src/shmem_ping.rs:13-44 | a payload that fits, sent on a channel in the writer's turn, is received unchanged, and the channel returns to the writer's turn |
| Framing.WriteU32Le | examples/loopback_latency.rs:177-180 | writing appends exactly four bytes, the `to_le_bytes` of the value, after what was already written |
| Framing.ReadU32Le | examples/loopback_latency.rs:171-175 | reading fails exactly when fewer than four bytes remain. Otherwise it consumes exactly four bytes and returns their `from_le_bytes` value |
| Framing.U32RoundTrip | examples/loopback_latency.rs:171-180 | reading back a written u32 returns it and leaves the rest of the stream |
| Framing.U32BytesRoundTrip | examples/loopback_latency.rs:171-180 | four bytes read as a u32 and written back are the same four bytes |
| Framing.WriteMessage | examples/loopback_latency.rs:139-143 | writing appends a 4-byte prefix holding the payload length modulo 2^32, then the payload |
| Framing.ReadMessage | examples/loopback_latency.rs:132-137 | reading fails exactly when the prefix is incomplete. Otherwise it returns at most n bytes (exactly n when they are available), taken in stream order after the prefix |
| Framing.MessageRoundTrip | examples/loopback_latency.rs:132-143 | reading a framed payload shorter than 2^32 bytes returns it and leaves what followed it |
| Framing.MessagesInOrder | examples/loopback_latency.rs:132-143 | two frames written back to back are read back in order, with nothing lost or merged, when the parser consumes each whole frame |
| Framing.LongMessageTruncated | examples/loopback_latency.rs:139-143 | a payload of 2^32 bytes or more gets its length truncated by `as u32`, so reading it back yields only a prefix |
| Ping.LoopbackPing | examples/loopback_latency.rs:93-130 | the client frames the request, the echo pump reads, parses and frames it back, and the client reads and parses the reply. For a message whose encoding parses back to it and is shorter than 2^32 bytes, the reply is that message, so the echoed index equals the sent index (examples/loopback_latency.rs:35) |
| Ping.ShmemPing | examples/loopback_latency.rs:196-201 | a completed shared-memory ping leaves both channels in the writer's turn, and the request fitted the window |
| Ping.ShmemPingEchoes | examples/shmem_ping_server.rs:13-16 | with the echo server between them, a shared-memory ping of a message whose encoding fits returns that message |

## Left out

- Memory mapping and flinks are not modelled. `ShmemConf` create-or-open and its panic on
  other errors (src/shmem_lab.rs:113-119) are OS I/O through a library that is not part of
  this model. A region is just a byte string handed to `Attach` / `Open`.
- Handshake.Attach and Handshake.Open require a region of at least 8 bytes. The source
  trusts the size of a region it attaches to, and a smaller one would be undefined
  behaviour.
- Real atomics and memory ordering (`SeqCst`) are not modelled. The race between two
  processes becomes sequences of observed values: polls, and initialisation passes.
- The turn word is read from the region as a little-endian u64. This is the byte order of
  the platforms the tool runs on; `AtomicU64` itself uses native byte order.
- Wall-clock deadlines (`SystemTime`) are replaced by a count of deadline checks. This
  also removes the Duration arithmetic of `Timeout::Val`. `do_sleep` is not used by the
  core.
- Handshake.SpinWait: the spin count is unbounded here. The source's `u64` counter cannot
  overflow in practice.
- An infinite wait that never sees its turn does not terminate in the source. The model's
  requires clauses only admit observation sequences on which the wait ends.
- JSON serialization and UTF-8 decoding are treated as opaque bytes. In `Ping` they are
  functions that are only assumed to invert each other on the pinged message. Whether
  serde accepts a short read is not modelled.
- Envelope.EncodeInto: the 4-byte prefix the source writes before it panics on an
  oversized payload is not modelled. The result is simply `None`.
- Envelope.PingReceive: after a panic on a bad stored length, the channel stays in the
  reader's turn in the source. The model returns `None` without a channel.
- `Stats` is modelled only as the two lists the ping helpers append to.
- TCP sockets, threads, child-process pipes, flushing, and the other `Ping` transports
  (examples/loopback_latency.rs:56-92, 104-121, 145-169) are I/O plumbing. A stream is a
  byte string.
- A read or write error on the stream beyond running out of bytes is not modelled.
- Framing.ReadMessage assumes the parser consumes all `n` bytes of the limited reader.
  `serde_json::from_reader` (examples/loopback_latency.rs:135) reads to the end of the
  frame only when the parse succeeds. On a parse error it can stop early, and the next
  `read_message`, such as the echo pump's at examples/loopback_latency.rs:95-101, then
  starts inside the frame. Framing.MessageRoundTrip and Framing.MessagesInOrder therefore
  hold in the source only for payloads that parse completely.
- Latency statistics (examples/loopback_latency.rs:39-47) are left out: they are floating
  point and wall-clock time.
- The file removal at the start of examples/shmem_ping_server.rs is left out. Its echo
  loop is modelled once per round in `Ping.ShmemPing`.
