# ROS 2 bridge writer: publish frames and point-cloud packing

This project models the two writers of the simulator's ROS 2 bridge in Dafny
and proves their byte layouts.

- **`Ros2Writer<BridgeType>`** frames one message for publishing. It builds a
  new byte array holding:
  - the Publish opcode;
  - the topic length as a little-endian 32-bit word, then the topic bytes;
  - the payload length as a little-endian 32-bit word, then the payload that
    the message codec serializes straight into the array.
- **`Ros2PointCloudWriter`** packs a sensor reading into the reusable `Buffer`.
  It skips every point equal to the zero vector. It writes each remaining
  point as a 16-byte record: the transformed x, y, z, then the intensity. It
  then describes the records in a `PointCloud2` message and publishes that
  message through its own `Ros2Writer`.

Modules:

- `Bytes` (bytes.dfy): bytes, the little-endian 32-bit word `LE32` and its
  reader `DecodeLE32`, `WriteLE32` (the four shift-and-cast stores), and
  `BlockCopy` (copying a run of bytes into an array at an offset, standing for
  `Buffer.BlockCopy`).
- `Frames` (frames.dfy): the bridge opcodes, the frame layout `EncodeFrame`,
  and a matching reader `ParseFrame`. Also the message codec, modelled as the
  function from a message to its serialized bytes, with `GetLength` and
  `Serialize` built on it. Last, the class `FrameWriter<M>` with `Write`.
- `PointCloud` (pointcloud.dfy): points and the field descriptor table
  `PointFields`. The record encoding `EncodeRecord` and its reader
  `DecodeRecord`. The specification functions `Emitted` (the points that are
  kept, in order) and `Pack` (their records one after another). The message
  function `CloudMessage`. The packing loop `PackPoints`, and the class
  `PointCloudWriter` with its `buffer` field and `Write`.
- `Wrappers` (wrappers.dfy): `Option` and `Result`.

How the source's pieces are represented:

- Floats are 32-bit bit patterns (`Float32`). Nothing is computed with them.
- `Transform.MultiplyPoint3x4` is the caller-supplied function
  `PointCloudData.transform`.
- The comparison `point == Vector4.zero` is the predicate `isZero`. It is
  fixed when a `PointCloudWriter` is constructed.
- The raw pointer stores of the transformed `Vector3` and of the intensity
  are two `BlockCopy` calls in `StoreAt`. They write the same bytes in
  little-endian order, at `offset` and `offset + 12`.
- The stores of the length fields are the `WriteLE32` method, and the two
  stores of one point are the `StoreAt` method. The packing loop is the
  method `PackPoints`, which `Write` calls. All keep the statements and their
  order.
- The codec's length query `GetLength` is, by definition, the number of bytes
  the message serializes to (`|bytes(m)|`). It is the chosen abstraction of
  `Ros2Serialization.GetLength`, not a proved property.
- The codec's `Debug.Assert(written == messageLength)` is an `assert`. The
  verifier proves it from `Serialize`'s contract and that definition.
- Sends in flight never read `Buffer`. The frame is a new array, filled
  before the transport gets it, and `PointCloudWriter.Write` states
  `frame != buffer`. A later `Write` that reuses `Buffer` therefore leaves
  the bytes of an earlier frame as they were.

## Model

| member | source | states |
|---|---|---|
| Bytes.LE32 | Ros2Writer.cs:35-38 | the shift-and-cast stores produce exactly four bytes |
| Bytes.DecodeEncodeLE32 | Ros2Writer.cs:35-38 | reading the four stored bytes as a little-endian word gives back the 32-bit value |
| Bytes.EncodeDecodeLE32 | Ros2Writer.cs:41-44 | every four-byte word is the stored form of the value it reads as, so the reader loses nothing |
| Bytes.LE32Injective | Ros2Writer.cs:35-38 | two lengths with the same four stored bytes are equal |
| Bytes.WriteLE32 | Ros2Writer.cs:35-38 | the four stores put `LE32(n)` at `dst[at..at+4]` and change nothing else |
| Bytes.BlockCopy | Ros2Writer.cs:39 | the copied run lands at `dst[at..at+len]`; the bytes before and after it are unchanged |
| Frames.OpcodeOf | Ros2Writer.cs:33 | the reader maps a byte to the opcode stored as that byte, and to none when no opcode has that byte |
| Frames.EncodeFrame | Ros2Writer.cs:32-45 | frame length is `1 + 4 + topicLength + 4 + payloadLength`; byte 0 is the opcode; `[1,5)` the topic length; `[5,5+tl)` the topic; `[5+tl,9+tl)` the payload length; the rest the payload |
| Frames.ParseFrame | Ros2Writer.cs:32-45 | an accepted frame has a topic and payload that fit the 32-bit length fields |
| Frames.ParseEncodeFrame | Ros2Writer.cs:32-45 | round trip: reading a written frame gives back its opcode, topic bytes and payload bytes |
| Frames.EncodeParseFrame | Ros2Writer.cs:32-45 | the reader accepts only written frames: an accepted input is exactly the encoding of what was read, with no spare bytes |
| Frames.ShortTopicFrame | Ros2Writer.cs:32-45 | topic "/a" and a 10-byte payload give 21 bytes, with `02 00 00 00` at `[1,5)` and `0a 00 00 00` at `[7,11)` |
| Frames.Serialize | Ros2Writer.cs:45 | the serializer writes the message's bytes at the offset, returns their count, and changes nothing else |
| Frames.FrameWriter.constructor | Ros2Writer.cs:21-25 | the writer keeps the topic bytes and the codec it was given |
| Frames.AssembleFrame | Ros2Writer.cs:33-45 | the writer's five stores, each keeping what the earlier ones wrote, leave exactly the encoded frame |
| Frames.FrameWriter.Write | Ros2Writer.cs:27-50 | returns a freshly allocated array equal to `EncodeFrame(Frame(Publish, topic, bytes(message)))`; the `Debug.Assert` at :47 is proved in the body |
| PointCloud.Vec3Bytes | Ros2Writer.cs:137 | a transformed position takes 12 bytes |
| PointCloud.EncodeRecord | Ros2Writer.cs:136-140 | a record is `pointStep` = 16 bytes long |
| PointCloud.FieldsDescribeRecord | Ros2Writer.cs:61-90 | each of the four descriptors is one FLOAT32 lying inside the 16-byte record; reading a record at the descriptor's offset gives the value its name stands for (transformed x, y, z, untransformed intensity) |
| PointCloud.DecodeEncodeRecord | Ros2Writer.cs:136-140 | reading a record back through the descriptor table gives the transformed point |
| PointCloud.Emitted | Ros2Writer.cs:128-134 | the emitted points are never more than the input points |
| PointCloud.EmittedSound | Ros2Writer.cs:128-134 | every emitted point is an input point that is not the zero vector |
| PointCloud.EmittedCount | Ros2Writer.cs:128-145 | the number of emitted points is the number of input points less the number of zero vectors |
| PointCloud.EmittedStep | Ros2Writer.cs:130-145 | one more input point adds that point to the end of the emitted points, unless it is the zero vector |
| PointCloud.EmittedPrefix | Ros2Writer.cs:128-145 | the points emitted from a prefix of the input are a prefix of the points emitted from all of it |
| PointCloud.EmittedAt | Ros2Writer.cs:128-145 | input order is kept: a non-zero input point is emitted at the position given by the count of non-zero points before it |
| PointCloud.Pack | Ros2Writer.cs:137-143 | packing `k` points gives `16 * k` bytes |
| PointCloud.PackSnoc | Ros2Writer.cs:137-143 | packing one more point appends its record |
| PointCloud.PackRecordAt | Ros2Writer.cs:137-143 | the `k`-th record, at bytes `[16k, 16k+16)`, is the record of the `k`-th point |
| PointCloud.UnpackPack | Ros2Writer.cs:137-143 | round trip: reading the packed bytes record by record gives the transformed points in order |
| PointCloud.CloudMessage | Ros2Writer.cs:150-170 | the message has height 1, the four-field table, point step 16, little-endian data, the dense flag, and the reading's stamp and frame id; width = points − zero vectors; `row_step = width × point_step = data length`; the data reads back as the transformed emitted points in order |
| PointCloud.TwoOfThreeEmitted | Ros2Writer.cs:128-134 | of three points whose middle one is the zero vector, the outer two are emitted, in order |
| PointCloud.PackPair | Ros2Writer.cs:137-143 | packing two points gives their two records one after the other |
| PointCloud.TwoOfThreePoints | Ros2Writer.cs:114-170 | the points (1,2,3,0.5), zero, (4,5,6,1.0) under the identity transform give width 2, row step 32, and the floats 1,2,3,0.5,4,5,6,1.0 as data |
| PointCloud.StoreRecord | Ros2Writer.cs:137-140 | the position store then the intensity store leave the full record at `offset` and the rest of the buffer unchanged |
| PointCloud.StoreAt | Ros2Writer.cs:137-140 | the two stores of one point put its position bytes and intensity bytes at `[offset, offset+16)` and change nothing else |
| PointCloud.PackPoints | Ros2Writer.cs:122-148 | returns the number of non-zero points; the buffer's first `16 × count` bytes are their packed records in input order; the bytes from `16 × count` on are not written |
| PointCloud.PointCloudWriter.constructor | Ros2Writer.cs:109-112 | the writer holds a frame writer for the topic, and starts with no buffer |
| PointCloud.PointCloudWriter.Write | Ros2Writer.cs:114-173 | afterwards the buffer holds `16 × N` bytes; the same array is kept when its length already matched, otherwise the array is freshly allocated and zero-filled; the message is `CloudMessage` of the reading; its data is the buffer's first `16 × width` bytes, and the bytes after them are the old ones (or zero); the returned frame is the publish frame of that message, in a new array that is never the buffer |

## Left out

- `Instance.SendAsync` and the completion callback (Ros2Writer.cs:49, :172)
  are asynchronous transport I/O. Both `Write` methods return the frame they
  would hand to the transport.
- The internals of `Ros2Serialization.GetLength` and `Serialize` are foreign
  code. They are represented only by the bytes a message serializes to
  (`Codec.bytes`).
- `PointCloud.CloudMessage`: the message's `data` is a copy of `Buffer`'s
  first `16 × width` bytes. In the source, `PartialByteArray` refers to the
  array itself and records a length. The copy holds the same bytes while the
  frame is built. The aliasing is not captured.
- `Encoding.ASCII.GetBytes` (Ros2Writer.cs:24): the writer takes the topic as
  its bytes. Non-ASCII characters are not modelled.
- `Ros2Conversions.Convert` (Ros2Writer.cs:154): the reading's stamp is taken
  as already converted.
- Floating-point behaviour is not modelled:
  - Unity's `Vector4 ==`, which compares within a small tolerance, is the
    predicate `isZero`;
  - `MultiplyPoint3x4` is the function `transform`;
  - no property depends on float values.
- The pointer stores write the host's byte order. The model fixes it to
  little-endian, which the message declares with `is_bigendian = false`.
- The commented-out 32-byte record layout (Ros2Writer.cs:91-106, :118, :139,
  :142, :161) is dead code.
- 32-bit overflow is excluded by preconditions rather than modelled as
  wrap-around:
  - `Frames.FrameWriter.Write` requires `9 + topicLength + messageLength < 2^31`;
  - `PointCloud.PointCloudWriter.Write` and `PointCloud.CloudMessage` require
    `16 × N < 2^31`.
- `BridgeOp` is declared outside Ros2Writer.cs and is not part of this model.
  The function `Frames.OpcodeByte` stands for its byte values, the cast at
  Ros2Writer.cs:33. The numbers used here are AddSubscriber 1, AddPublisher 2,
  Publish 3, AddService 4 and CallService 5. No proof depends on the numbers, only on
  different opcodes having different bytes.
- The FLOAT32 tag `7` is the value in the PointField message of ROS 2
  `sensor_msgs`. That declaration is not part of this model.
