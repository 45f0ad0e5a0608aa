/** The length-prefixed envelope that `shmem_ping.rs` writes into and reads out
    of the channel's fixed-size byte window. The serialized message is opaque:
    it is the payload byte string. */
module Envelope {
  import opened Types
  import opened LittleEndian
  import opened Handshake

  /** Size of the byte window carried by the channel. */
  const MESSAGE_SHMEM_SIZE: nat := 64 * 512
  /** Size of the little-endian length prefix. */
  const PREFIX_SIZE: nat := 4

  /** A value of the channel's payload type, a byte array of fixed size. */
  predicate IsWindow(w: seq<u8>) {
    |w| == MESSAGE_SHMEM_SIZE
  }

  /** The window fits behind the turn word of a region created by `open`. */
  lemma WindowFitsRegion()
    ensures MESSAGE_SHMEM_SIZE <= DEFAULT_SIZE - STATE_WORD_SIZE
  {
  }

  /** The channel a sender or receiver works on: the turn word, and the payload
      read through the data pointer as a window-sized byte array. */
  function ChannelOf(ctx: Ctx): (ch: Channel<seq<u8>>)
    requires |ctx.data| >= MESSAGE_SHMEM_SIZE
    ensures IsWindow(ch.slot)
    ensures ch.state == ctx.state
    ensures RegionBytes(ctx)[STATE_WORD_SIZE..STATE_WORD_SIZE + MESSAGE_SHMEM_SIZE] == ch.slot
  {
    Channel(ctx.state, ctx.data[..MESSAGE_SHMEM_SIZE])
  }

  /** Opening a region of the default size yields a channel that meets what the
      ping helpers and the protocol runs ask of it: a turn value in the word and
      a full window behind it. */
  lemma OpenedChannelUsable(region: seq<u8>)
    requires |region| == DEFAULT_SIZE
    ensures |Open(region).data| >= MESSAGE_SHMEM_SIZE
    ensures IsTurn(ChannelOf(Open(region)).state)
    ensures IsWindow(ChannelOf(Open(region)).slot)
    ensures ChannelOf(Open(region)).slot == region[STATE_WORD_SIZE..STATE_WORD_SIZE + MESSAGE_SHMEM_SIZE]
  {
    WindowFitsRegion();
    var ctx := Open(region);
    assert ctx.data[..MESSAGE_SHMEM_SIZE] == region[STATE_WORD_SIZE..STATE_WORD_SIZE + MESSAGE_SHMEM_SIZE];
  }

  /** The length stored in the window's prefix. */
  function StoredLength(window: seq<u8>): (n: u32)
    requires IsWindow(window)
  {
    U32FromLe(window[..PREFIX_SIZE])
  }

  /** Writes the envelope for `payload` over `window`: the length as a
      little-endian `u32`, then the payload; bytes past the payload keep their
      old contents. `None` when the payload slice runs past the window (the
      source panics there). */
  function EncodeInto(window: seq<u8>, payload: seq<u8>): (r: Option<seq<u8>>)
    requires IsWindow(window)
    ensures r.Some? <==> |payload| + PREFIX_SIZE <= MESSAGE_SHMEM_SIZE
    ensures r.Some? ==> IsWindow(r.value)
    ensures r.Some? ==> StoredLength(r.value) == |payload|
    ensures r.Some? ==> r.value[PREFIX_SIZE..|payload| + PREFIX_SIZE] == payload
    ensures r.Some? ==> r.value[|payload| + PREFIX_SIZE..] == window[|payload| + PREFIX_SIZE..]
  {
    var prefix := U32ToLe(|payload| % U32_MODULUS);
    if |payload| + PREFIX_SIZE <= |window| then
      var written := prefix + payload + window[|payload| + PREFIX_SIZE..];
      assert written[..PREFIX_SIZE] == prefix;
      Some(written)
    else
      None
  }

  /** Reads the envelope in `window`: the stored length `n`, then bytes
      `[4, n + 4)`. `None` when that range runs past the window (the source
      panics there). */
  function DecodeFrom(window: seq<u8>): (r: Option<seq<u8>>)
    requires IsWindow(window)
    ensures r.Some? <==> StoredLength(window) + PREFIX_SIZE <= MESSAGE_SHMEM_SIZE
    ensures r.Some? ==> |r.value| == StoredLength(window) <= MESSAGE_SHMEM_SIZE - PREFIX_SIZE
  {
    var n := StoredLength(window);
    var end := n + PREFIX_SIZE;
    if end <= |window| then Some(window[PREFIX_SIZE..end]) else None
  }

  /** Decoding an envelope written over any window yields the payload. */
  lemma EnvelopeRoundTrip(window: seq<u8>, payload: seq<u8>)
    requires IsWindow(window)
    requires |payload| + PREFIX_SIZE <= MESSAGE_SHMEM_SIZE
    ensures EncodeInto(window, payload).Some?
    ensures DecodeFrom(EncodeInto(window, payload).value) == Some(payload)
  {
  }

  /** A window that decodes is exactly the envelope of what it decodes to: the
      encoding rewrites it unchanged. */
  lemma DecodedWindowReencodes(window: seq<u8>)
    requires IsWindow(window)
    requires DecodeFrom(window).Some?
    ensures EncodeInto(window, DecodeFrom(window).value) == Some(window)
  {
    var payload := DecodeFrom(window).value;
    var written := EncodeInto(window, payload).value;
    assert written[..PREFIX_SIZE] == window[..PREFIX_SIZE] by {
      assert U32ToLe(StoredLength(written)) == written[..PREFIX_SIZE];
      assert U32ToLe(StoredLength(window)) == window[..PREFIX_SIZE];
    }
    assert written == written[..PREFIX_SIZE] + written[PREFIX_SIZE..|payload| + PREFIX_SIZE] + written[|payload| + PREFIX_SIZE..];
    assert window == window[..PREFIX_SIZE] + window[PREFIX_SIZE..|payload| + PREFIX_SIZE] + window[|payload| + PREFIX_SIZE..];
  }

  /** A send of the ping helpers: the channel afterwards and the statistics. */
  datatype SendDone = SendDone(channel: Channel<seq<u8>>, stats: Option<Stats>)

  /** A receive of the ping helpers: the payload, the channel afterwards and the
      statistics. */
  datatype ReceiveDone = ReceiveDone(payload: seq<u8>, channel: Channel<seq<u8>>, stats: Option<Stats>)

  /** Appends a send spin count to the statistics, when they are collected. */
  function RecordSend(stats: Option<Stats>, spins: nat): (r: Option<Stats>)
    ensures r.Some? <==> stats.Some?
    ensures r.Some? ==> r.value.sendSpins == stats.value.sendSpins + [spins]
    ensures r.Some? ==> r.value.receiveSpins == stats.value.receiveSpins
  {
    match stats
    case None => None
    case Some(s) => Some(s.(sendSpins := s.sendSpins + [spins]))
  }

  /** Appends a receive spin count to the statistics, when they are collected. */
  function RecordReceive(stats: Option<Stats>, spins: nat): (r: Option<Stats>)
    ensures r.Some? <==> stats.Some?
    ensures r.Some? ==> r.value.receiveSpins == stats.value.receiveSpins + [spins]
    ensures r.Some? ==> r.value.sendSpins == stats.value.sendSpins
  {
    match stats
    case None => None
    case Some(s) => Some(s.(receiveSpins := s.receiveSpins + [spins]))
  }

  /** `shmem_ping_send`: wait without deadline for the writer's turn, write the
      envelope over the window, hand the turn over. `earlier` and `ch` are as
      for `Handshake.Send`. `None` when the payload does not fit. */
  function PingSend(ch: Channel<seq<u8>>, payload: seq<u8>, earlier: seq<u64>, stats: Option<Stats>): (r: Option<SendDone>)
    requires IsWindow(ch.slot)
    requires WaitEndsAt(earlier, ch.state, STATE_READY_TO_WRITE, Infinite)
    ensures r.Some? <==> |payload| + PREFIX_SIZE <= MESSAGE_SHMEM_SIZE
    ensures r.Some? ==> r.value.channel.state == STATE_READY_TO_READ
    ensures r.Some? ==> IsWindow(r.value.channel.slot) && DecodeFrom(r.value.channel.slot) == Some(payload)
    ensures r.Some? ==> r.value.channel.slot[|payload| + PREFIX_SIZE..] == ch.slot[|payload| + PREFIX_SIZE..]
    ensures r.Some? ==> (r.value.stats.Some? <==> stats.Some?)
    ensures r.Some? && stats.Some? ==> r.value.stats.value.sendSpins == stats.value.sendSpins + [|earlier|]
    ensures r.Some? && stats.Some? ==> r.value.stats.value.receiveSpins == stats.value.receiveSpins
  {
    match EncodeInto(ch.slot, payload)
    case None => None
    case Some(window) =>
      EnvelopeRoundTrip(ch.slot, payload);
      var step := Send(ch, window, Infinite, earlier);
      Some(SendDone(step.channel, RecordSend(stats, step.result.value.spinCount)))
  }

  /** `shmem_ping_receive`: wait without deadline for the reader's turn, read
      the envelope from the window, hand the turn back. `None` when the stored
      length runs past the window; the source panics before handing the turn
      back. */
  function PingReceive(ch: Channel<seq<u8>>, earlier: seq<u64>, stats: Option<Stats>): (r: Option<ReceiveDone>)
    requires IsWindow(ch.slot)
    requires WaitEndsAt(earlier, ch.state, STATE_READY_TO_READ, Infinite)
    ensures r.Some? <==> StoredLength(ch.slot) + PREFIX_SIZE <= MESSAGE_SHMEM_SIZE
    ensures r.Some? ==> Some(r.value.payload) == DecodeFrom(ch.slot)
    ensures r.Some? ==> r.value.channel == Channel(STATE_READY_TO_WRITE, ch.slot)
    ensures r.Some? ==> (r.value.stats.Some? <==> stats.Some?)
    ensures r.Some? && stats.Some? ==> r.value.stats.value.receiveSpins == stats.value.receiveSpins + [|earlier|]
    ensures r.Some? && stats.Some? ==> r.value.stats.value.sendSpins == stats.value.sendSpins
  {
    var step := Receive(ch, Infinite, earlier);
    var success := step.result.value;
    var recorded := RecordReceive(stats, success.spinCount);
    match DecodeFrom(success.value)
    case None => None
    case Some(payload) => Some(ReceiveDone(payload, step.channel, recorded))
  }

  /** A payload that fits passes through a channel in the writer's turn: the
      receiver gets it back and the channel returns to the writer's turn. */
  lemma PingHopDelivers(ch: Channel<seq<u8>>, payload: seq<u8>)
    requires IsWindow(ch.slot)
    requires ch.state == STATE_READY_TO_WRITE
    requires |payload| + PREFIX_SIZE <= MESSAGE_SHMEM_SIZE
    ensures PingSend(ch, payload, [], None).Some?
    ensures var sent := PingSend(ch, payload, [], None).value;
            && PingReceive(sent.channel, [], None).Some?
            && PingReceive(sent.channel, [], None).value.payload == payload
            && PingReceive(sent.channel, [], None).value.channel.state == STATE_READY_TO_WRITE
  {
  }
}
