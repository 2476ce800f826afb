/**
 * The publish frame the bridge writer sends for one message:
 *
 *   offset        size        field
 *   0             1           opcode (Publish)
 *   1             4           topic length, little-endian
 *   5             topicLen    topic bytes
 *   5+topicLen    4           payload length, little-endian
 *   9+topicLen    payloadLen  payload bytes
 *
 * `EncodeFrame` is the layout, `ParseFrame` the matching reader, and
 * `FrameWriter.Write` the writer that fills a fresh array index by index.
 */
module Frames {
  import opened Wrappers
  import opened Bytes

  /** The operations of the bridge protocol; a frame's first byte names one. */
  datatype Opcode = AddSubscriber | AddPublisher | Publish | AddService | CallService

  function OpcodeByte(op: Opcode): byte
  {
    match op
    case AddSubscriber => 1
    case AddPublisher => 2
    case Publish => 3
    case AddService => 4
    case CallService => 5
  }

  /** The opcode a reader sees in a frame's first byte, if any. */
  function OpcodeOf(b: byte): (r: Option<Opcode>)
    ensures r.Some? ==> OpcodeByte(r.value) == b
    ensures forall op :: OpcodeByte(op) == b ==> r == Some(op)
  {
    if b == 1 then Some(AddSubscriber)
    else if b == 2 then Some(AddPublisher)
    else if b == 3 then Some(Publish)
    else if b == 4 then Some(AddService)
    else if b == 5 then Some(CallService)
    else None
  }

  /** A frame's contents: its opcode, its topic and its serialized payload. */
  datatype Frame = Frame(op: Opcode, topic: seq<byte>, payload: seq<byte>)

  /** Both lengths fit the 32-bit length fields. */
  predicate FitsLengthFields(f: Frame)
  {
    |f.topic| < U32_LIMIT && |f.payload| < U32_LIMIT
  }

  /** The bytes of a frame, with every field at the offset the layout gives. */
  function EncodeFrame(f: Frame): (s: seq<byte>)
    requires FitsLengthFields(f)
    ensures |s| == 1 + 4 + |f.topic| + 4 + |f.payload|
    ensures s[0] == OpcodeByte(f.op)
    ensures s[1..5] == LE32(|f.topic|)
    ensures s[5..5 + |f.topic|] == f.topic
    ensures s[5 + |f.topic|..9 + |f.topic|] == LE32(|f.payload|)
    ensures s[9 + |f.topic|..] == f.payload
  {
    var head := [OpcodeByte(f.op)] + LE32(|f.topic|) + f.topic;
    var s := head + LE32(|f.payload|) + f.payload;
    assert s[..5 + |f.topic|] == head;
    assert head[1..5] == LE32(|f.topic|) && head[5..] == f.topic;
    s
  }

  datatype FrameError =
    | Truncated              // a length field or a segment runs past the end
    | UnknownOpcode(b: byte) // the first byte names no operation
    | TrailingBytes(n: nat)  // bytes are left over after the payload

  /** Reads a frame with the layout above; a frame must end exactly after its payload. */
  function ParseFrame(s: seq<byte>): (r: Result<Frame, FrameError>)
    ensures r.Success? ==> FitsLengthFields(r.value)
  {
    if |s| < 5 then Failure(Truncated)
    else
      match OpcodeOf(s[0])
      case None => Failure(UnknownOpcode(s[0]))
      case Some(op) =>
        var topicLength := DecodeLE32(s[1..5]);
        if |s| < 9 + topicLength then Failure(Truncated)
        else
          var payloadLength := DecodeLE32(s[5 + topicLength..9 + topicLength]);
          if |s| < 9 + topicLength + payloadLength then Failure(Truncated)
          else if |s| > 9 + topicLength + payloadLength then
            Failure(TrailingBytes(|s| - (9 + topicLength + payloadLength)))
          else Success(Frame(op, s[5..5 + topicLength], s[9 + topicLength..]))
  }

  /** Round trip: reading a written frame gives back its opcode, topic and payload. */
  lemma ParseEncodeFrame(f: Frame)
    requires FitsLengthFields(f)
    ensures ParseFrame(EncodeFrame(f)) == Success(f)
  {
    var s := EncodeFrame(f);
    DecodeEncodeLE32(|f.topic|);
    DecodeEncodeLE32(|f.payload|);
    assert DecodeLE32(s[1..5]) == |f.topic|;
    assert DecodeLE32(s[5 + |f.topic|..9 + |f.topic|]) == |f.payload|;
  }

  /** The reader accepts nothing but written frames: an accepted input is the encoding of what it read. */
  lemma EncodeParseFrame(s: seq<byte>)
    requires ParseFrame(s).Success?
    ensures EncodeFrame(ParseFrame(s).value) == s
  {
    var f := ParseFrame(s).value;
    var tl := |f.topic|;
    EncodeDecodeLE32(s[1..5]);
    EncodeDecodeLE32(s[5 + tl..9 + tl]);
    var e := EncodeFrame(f);
    assert |e| == |s|;
    forall k | 0 <= k < |s| ensures e[k] == s[k]
    {
      if k == 0 {
      } else if k < 5 {
        assert e[k] == e[1..5][k - 1] && s[k] == s[1..5][k - 1];
      } else if k < 5 + tl {
        assert e[k] == e[5..5 + tl][k - 5];
      } else if k < 9 + tl {
        assert e[k] == e[5 + tl..9 + tl][k - 5 - tl] && s[k] == s[5 + tl..9 + tl][k - 5 - tl];
      } else {
        assert e[k] == e[9 + tl..][k - 9 - tl];
      }
    }
  }

  /** A worked frame: the 2-byte topic "/a" and a 10-byte payload give a 21-byte frame. */
  lemma ShortTopicFrame(payload: seq<byte>)
    requires |payload| == 10
    ensures var s := EncodeFrame(Frame(Publish, ['/' as int as byte, 'a' as int as byte], payload));
            |s| == 21 && s[1..5] == [2, 0, 0, 0] && s[7..11] == [10, 0, 0, 0] && s[11..] == payload
  {
  }

  /**
   * The message codec of the bridge: the bytes a message of type `M`
   * serializes to. Its internals are not part of this model; a writer only
   * relies on the length it reports agreeing with the bytes it writes.
   */
  datatype Codec<!M> = Codec(bytes: M -> seq<byte>)
  {
    /** The codec's length query: by definition, the number of bytes `m` serializes to. */
    function GetLength(m: M): nat
    {
      |bytes(m)|
    }
  }

  /**
   * The codec's serializer: writes the bytes of `m` into `dst` at `offset`
   * and reports how many it wrote. Nothing outside that run changes.
   */
  method Serialize<M>(codec: Codec<M>, m: M, dst: array<byte>, offset: nat) returns (written: nat)
    requires offset + |codec.bytes(m)| <= dst.Length
    modifies dst
    ensures written == |codec.bytes(m)|
    ensures dst[..offset] == old(dst[..offset])
    ensures dst[offset..offset + written] == codec.bytes(m)
    ensures dst[offset + written..] == old(dst[offset + written..])
  {
    BlockCopy(codec.bytes(m), dst, offset);
    written := |codec.bytes(m)|;
  }

  /**
   * The five stores of a frame writer, applied one after another to an
   * array of the frame's size, leave the encoding of the frame: each store
   * places its field, and each later one keeps everything before it.
   */
  lemma AssembleFrame(s0: seq<byte>, s1: seq<byte>, s2: seq<byte>, s3: seq<byte>, s4: seq<byte>, f: Frame)
    requires FitsLengthFields(f)
    requires |s0| == |s1| == |s2| == |s3| == |s4| == 9 + |f.topic| + |f.payload|
    requires s0[..1] == [OpcodeByte(f.op)]
    requires s1[..1] == s0[..1] && s1[1..5] == LE32(|f.topic|)
    requires s2[..5] == s1[..5] && s2[5..5 + |f.topic|] == f.topic
    requires s3[..5 + |f.topic|] == s2[..5 + |f.topic|]
    requires s3[5 + |f.topic|..9 + |f.topic|] == LE32(|f.payload|)
    requires s4[..9 + |f.topic|] == s3[..9 + |f.topic|] && s4[9 + |f.topic|..] == f.payload
    ensures s4 == EncodeFrame(f)
  {
    var tl := |f.topic|;
    assert s1[..5] == s1[..1] + s1[1..5];
    assert s2[..5 + tl] == s2[..5] + s2[5..5 + tl];
    assert s3[..9 + tl] == s3[..5 + tl] + s3[5 + tl..9 + tl];
    assert s4 == s4[..9 + tl] + s4[9 + tl..];
  }

  /** A writer bound to one topic, framing messages of type `M` for publishing. */
  class FrameWriter<M> {
    const topic: seq<byte>
    const codec: Codec<M>

    constructor (topic: seq<byte>, codec: Codec<M>)
      ensures this.topic == topic && this.codec == codec
    {
      this.topic := topic;
      this.codec := codec;
    }

    /**
     * Builds the publish frame for `message` in a freshly allocated array
     * of exactly the frame's size. The agreement between the codec's length
     * and the number of bytes it wrote is proved, not checked at run time.
     */
    method Write(message: M) returns (frame: array<byte>)
      requires 9 + |topic| + |codec.bytes(message)| < INT_LIMIT
      ensures fresh(frame)
      ensures frame[..] == EncodeFrame(Frame(Publish, topic, codec.bytes(message)))
    {
      var topicLength := |topic|;
      var messageLength := codec.GetLength(message);

      frame := new byte[1 + 4 + topicLength + 4 + messageLength];
      frame[0] := OpcodeByte(Publish);
      ghost var opcodeStored := frame[..];

      WriteLE32(frame, 1, topicLength);
      ghost var topicLengthStored := frame[..];
      BlockCopy(topic, frame, 5);
      ghost var topicStored := frame[..];

      WriteLE32(frame, 5 + topicLength, messageLength);
      ghost var messageLengthStored := frame[..];
      var written := Serialize(codec, message, frame, 9 + topicLength);
      assert written == messageLength;

      AssembleFrame(opcodeStored, topicLengthStored, topicStored, messageLengthStored, frame[..],
                    Frame(Publish, topic, codec.bytes(message)));
    }
  }
}
