/** The stream framing helpers of `loopback_latency.rs`: a 4-byte little-endian
    length, then that many payload bytes. A writer appends to the bytes already
    written; a reader consumes from the front of the bytes still to be read.
    The serialized message is opaque: it is the payload byte string. */
module Framing {
  import opened Types
  import opened LittleEndian

  /** `read_exact` found the stream ended early. */
  datatype IoError = UnexpectedEof

  /** A read: the value and the bytes left in the stream, or an error. */
  datatype ReadResult<+T> = Read(value: T, rest: seq<u8>) | Failed(error: IoError)

  /** `write_u32_le`: append `v.to_le_bytes()`. */
  function WriteU32Le(out: seq<u8>, v: u32): (out': seq<u8>)
    ensures |out'| == |out| + 4
    ensures out'[..|out|] == out
    ensures out'[|out|..] == [v % 0x100, (v / 0x100) % 0x100, (v / 0x1_0000) % 0x100, v / 0x100_0000]
  {
    out + U32ToLe(v)
  }

  /** `read_u32_le`: consume four bytes and read them as a little-endian `u32`;
      fails when fewer than four remain. */
  function ReadU32Le(input: seq<u8>): (r: ReadResult<u32>)
    ensures r.Failed? <==> |input| < 4
    ensures r.Read? ==> r.rest == input[4..]
    ensures r.Read? ==> r.value == input[0] as int + 0x100 * input[1] as int + 0x1_0000 * input[2] as int + 0x100_0000 * input[3] as int
  {
    if |input| < 4 then Failed(UnexpectedEof) else Read(U32FromLe(input[..4]), input[4..])
  }

  /** Reading back what `WriteU32Le` wrote gives the value and leaves whatever
      followed it. */
  lemma U32RoundTrip(v: u32, tail: seq<u8>)
    ensures ReadU32Le(WriteU32Le([], v) + tail) == Read(v, tail)
  {
    var bytes := WriteU32Le([], v) + tail;
    assert bytes[..4] == U32ToLe(v);
  }

  /** Four bytes read as a `u32` and written back are the same four bytes. */
  lemma U32BytesRoundTrip(input: seq<u8>)
    requires |input| >= 4
    ensures WriteU32Le([], ReadU32Le(input).value) == input[..4]
  {
  }

  /** `write_message`: append the payload length as a `u32` (truncated by
      `as u32`), then the payload. */
  function WriteMessage(out: seq<u8>, payload: seq<u8>): (out': seq<u8>)
    ensures |out'| == |out| + 4 + |payload|
    ensures out'[..|out|] == out
    ensures ReadU32Le(out'[|out|..]) == Read(|payload| % U32_MODULUS, payload)
  {
    U32RoundTrip(|payload| % U32_MODULUS, payload);
    assert out + U32ToLe(|payload| % U32_MODULUS) + payload == out + (WriteU32Le([], |payload| % U32_MODULUS) + payload);
    WriteU32Le(out, |payload| % U32_MODULUS) + payload
  }

  /** The smaller of two counts. */
  function Min(a: nat, b: nat): nat {
    if a <= b then a else b
  }

  /** `read_message` up to the parser: read the length `n`, then hand the
      parser a reader limited to `n` further bytes, all of which a successful
      parse consumes.
      When fewer than `n` bytes remain it gets only those. */
  function ReadMessage(input: seq<u8>): (r: ReadResult<seq<u8>>)
    ensures r.Failed? <==> |input| < 4
    ensures r.Read? ==> |r.value| <= ReadU32Le(input).value
    ensures r.Read? ==> |input| >= 4 + ReadU32Le(input).value ==> |r.value| == ReadU32Le(input).value
    ensures r.Read? ==> input == input[..4] + r.value + r.rest
  {
    match ReadU32Le(input)
    case Failed(e) => Failed(e)
    case Read(n, rest) =>
      var taken := Min(n, |rest|);
      assert input == input[..4] + rest[..taken] + rest[taken..];
      Read(rest[..taken], rest[taken..])
  }

  /** A framed payload whose length fits in a `u32` reads back exactly, leaving
      whatever followed it on the stream. */
  lemma MessageRoundTrip(payload: seq<u8>, tail: seq<u8>)
    requires |payload| < U32_MODULUS
    ensures ReadMessage(WriteMessage([], payload) + tail) == Read(payload, tail)
  {
    var bytes := WriteMessage([], payload) + tail;
    assert bytes[4..] == payload + tail;
    assert ReadU32Le(bytes).value == |payload| by {
      assert bytes[..4] == WriteMessage([], payload)[..4];
    }
  }

  /** Two framed payloads written back to back are read back in order. */
  lemma MessagesInOrder(first: seq<u8>, second: seq<u8>)
    requires |first| < U32_MODULUS && |second| < U32_MODULUS
    ensures var stream := WriteMessage(WriteMessage([], first), second);
            && ReadMessage(stream) == Read(first, WriteMessage([], second))
            && ReadMessage(ReadMessage(stream).rest) == Read(second, [])
  {
    var stream := WriteMessage(WriteMessage([], first), second);
    assert stream == WriteMessage([], first) + WriteMessage([], second);
    MessageRoundTrip(first, WriteMessage([], second));
    MessageRoundTrip(second, []);
    assert WriteMessage([], second) + [] == WriteMessage([], second);
  }

  /** A payload of 2^32 bytes or more is framed with its length reduced modulo
      2^32, so reading it back yields only that many bytes. */
  lemma LongMessageTruncated(payload: seq<u8>)
    requires |payload| >= U32_MODULUS
    ensures ReadMessage(WriteMessage([], payload)) == Read(payload[..|payload| % U32_MODULUS], payload[|payload| % U32_MODULUS..])
    ensures |payload| % U32_MODULUS < |payload|
  {
    var bytes := WriteMessage([], payload);
    assert bytes[4..] == payload;
  }
}
