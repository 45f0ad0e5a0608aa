/** One `ping` round trip of the latency harness over the loopback stream and
    over the shared-memory channel pair. JSON serialization is foreign: it is a
    pair of functions `enc` / `dec`, assumed only to invert each other on the
    message being pinged. */
module Ping {
  import opened Types
  import opened Handshake
  import opened Envelope
  import opened Framing

  /** The message the harness sends and expects back. */
  datatype PingMessage = PingMessage(sentAt: int, index: u32)

  /** The loopback `ping`: the client frames the request onto its stream, the
      echo pump reads and parses it and frames it back, the client reads and
      parses the reply. `None` where a read or a parse fails. */
  function LoopbackPing(m: PingMessage, enc: PingMessage -> seq<u8>, dec: seq<u8> -> Option<PingMessage>): (r: Option<PingMessage>)
    ensures dec(enc(m)) == Some(m) && |enc(m)| < U32_MODULUS ==> r == Some(m)
  {
    assert |enc(m)| < U32_MODULUS ==> ReadMessage(WriteMessage([], enc(m))) == Read(enc(m), []) by {
      if |enc(m)| < U32_MODULUS {
        MessageRoundTrip(enc(m), []);
        assert WriteMessage([], enc(m)) + [] == WriteMessage([], enc(m));
      }
    }
    var request := WriteMessage([], enc(m));
    match ReadMessage(request)
    case Failed(_) => None
    case Read(requestBytes, _) =>
      match dec(requestBytes)
      case None => None
      case Some(echo) =>
        var reply := WriteMessage([], enc(echo));
        match ReadMessage(reply)
        case Failed(_) => None
        case Read(replyBytes, _) => dec(replyBytes)
  }

  /** A shared-memory round trip and the two channels it leaves. */
  datatype ShmemRound = ShmemRound(reply: PingMessage, input: Channel<seq<u8>>, output: Channel<seq<u8>>)

  /** The shared-memory `ping`, with both channels in the writer's turn: the
      client sends on `input`, the echo server receives there, parses, and
      sends the message back on `output`, where the client receives and parses
      it. `None` where a send, a receive or a parse fails. */
  function ShmemPing(m: PingMessage, enc: PingMessage -> seq<u8>, dec: seq<u8> -> Option<PingMessage>,
                     input: Channel<seq<u8>>, output: Channel<seq<u8>>): (r: Option<ShmemRound>)
    requires IsWindow(input.slot) && IsWindow(output.slot)
    requires input.state == STATE_READY_TO_WRITE && output.state == STATE_READY_TO_WRITE
    ensures r.Some? ==> r.value.input.state == STATE_READY_TO_WRITE && r.value.output.state == STATE_READY_TO_WRITE
    ensures r.Some? ==> |enc(m)| + PREFIX_SIZE <= MESSAGE_SHMEM_SIZE
  {
    match PingSend(input, enc(m), [], None)
    case None => None
    case Some(request) =>
      match PingReceive(request.channel, [], None)
      case None => None
      case Some(served) =>
        match dec(served.payload)
        case None => None
        case Some(echo) =>
          match PingSend(output, enc(echo), [], None)
          case None => None
          case Some(response) =>
            match PingReceive(response.channel, [], None)
            case None => None
            case Some(answer) =>
              match dec(answer.payload)
              case None => None
              case Some(reply) => Some(ShmemRound(reply, served.channel, answer.channel))
  }

  /** The shared-memory ping returns the message it sent and leaves both
      channels ready for the next round. */
  lemma ShmemPingEchoes(m: PingMessage, enc: PingMessage -> seq<u8>, dec: seq<u8> -> Option<PingMessage>,
                        input: Channel<seq<u8>>, output: Channel<seq<u8>>)
    requires IsWindow(input.slot) && IsWindow(output.slot)
    requires input.state == STATE_READY_TO_WRITE && output.state == STATE_READY_TO_WRITE
    requires dec(enc(m)) == Some(m)
    requires |enc(m)| + PREFIX_SIZE <= MESSAGE_SHMEM_SIZE
    ensures ShmemPing(m, enc, dec, input, output).Some?
    ensures ShmemPing(m, enc, dec, input, output).value.reply == m
  {
    PingHopDelivers(input, enc(m));
    PingHopDelivers(output, enc(m));
  }
}
