/**
 * The point-cloud packer: filters out all-zero points, packs each remaining
 * point into a 16-byte record in a reusable buffer, builds the PointCloud2
 * message that describes the packed records, and publishes it through a
 * frame writer.
 *
 * Floating-point values are kept as their 32-bit patterns. The affine
 * transform and the comparison with the zero vector are supplied as
 * functions; no float arithmetic is modelled.
 */
module PointCloud {
  import opened Wrappers
  import opened Bytes
  import opened Frames

  /** A 32-bit float, as the bit pattern the packer stores. */
  type Float32 = u32

  datatype Vec3 = Vec3(x: Float32, y: Float32, z: Float32)

  /** An input point: a position and an intensity. */
  datatype Point = Point(x: Float32, y: Float32, z: Float32, w: Float32)

  /** The already converted message timestamp. */
  datatype Stamp = Stamp(sec: int, nanosec: u32)

  /** One sensor reading: its points, the affine transform applied to their positions, its time and frame. */
  datatype PointCloudData = PointCloudData(points: seq<Point>, transform: Vec3 -> Vec3, time: Stamp, frame: string)

  datatype Header = Header(stamp: Stamp, frameId: string)

  /** A field descriptor of a packed record: name, byte offset in the record, element type, repeat count. */
  datatype PointField = PointField(name: string, offset: u32, dataType: byte, count: u32)

  /** The element type tag of a 32-bit float in the PointField message of ROS 2 sensor_msgs. */
  const FLOAT32: byte := 7

  /** The size of one packed record. */
  const PointStep: u32 := 16

  /** The record layout: x, y, z and intensity, each one float. */
  const PointFields: seq<PointField> := [
    PointField("x", 0, FLOAT32, 1),
    PointField("y", 4, FLOAT32, 1),
    PointField("z", 8, FLOAT32, 1),
    PointField("intensity", 12, FLOAT32, 1)
  ]

  datatype PointCloudMsg = PointCloudMsg(
    header: Header,
    height: u32,
    width: u32,
    fields: seq<PointField>,
    isBigendian: bool,
    pointStep: u32,
    rowStep: u32,
    data: seq<byte>,
    isDense: bool)

  /** The bytes the packer stores for a transformed position: x, y, z as consecutive little-endian floats. */
  function Vec3Bytes(v: Vec3): (b: seq<byte>)
    ensures |b| == 12
  {
    LE32(v.x as int) + LE32(v.y as int) + LE32(v.z as int)
  }

  /** The point a record describes: the transformed position and the untouched intensity. */
  function Transformed(t: Vec3 -> Vec3, p: Point): Point
  {
    var v := t(Vec3(p.x, p.y, p.z));
    Point(v.x, v.y, v.z, p.w)
  }

  /** The 16-byte record of point `p`: its transformed position at 0, its intensity at 12. */
  function EncodeRecord(t: Vec3 -> Vec3, p: Point): (r: seq<byte>)
    ensures |r| == PointStep as int
  {
    Vec3Bytes(t(Vec3(p.x, p.y, p.z))) + LE32(p.w as int)
  }

  /** The float a consumer reads for field `f` of a record. */
  function ReadField(record: seq<byte>, f: PointField): Float32
    requires f.offset as int + 4 <= |record|
  {
    DecodeLE32(record[f.offset..f.offset as int + 4]) as Float32
  }

  /** The value field `name` should hold for point `p`, if the layout has such a field. */
  function FieldValue(t: Vec3 -> Vec3, p: Point, name: string): Option<Float32>
  {
    var q := Transformed(t, p);
    if name == "x" then Some(q.x)
    else if name == "y" then Some(q.y)
    else if name == "z" then Some(q.z)
    else if name == "intensity" then Some(q.w)
    else None
  }

  /** Reads a record field by field, through the descriptor table. */
  function DecodeRecord(record: seq<byte>): Point
    requires |record| == PointStep as int
  {
    Point(ReadField(record, PointFields[0]), ReadField(record, PointFields[1]),
          ReadField(record, PointFields[2]), ReadField(record, PointFields[3]))
  }

  /**
   * The descriptor table describes the record: every field is one float
   * inside the 16-byte record, and reading it gives the value its name
   * stands for.
   */
  lemma FieldsDescribeRecord(t: Vec3 -> Vec3, p: Point, i: nat)
    requires i < |PointFields|
    ensures PointFields[i].dataType == FLOAT32 && PointFields[i].count == 1
    ensures PointFields[i].offset as int + 4 <= PointStep as int
    ensures FieldValue(t, p, PointFields[i].name) == Some(ReadField(EncodeRecord(t, p), PointFields[i]))
  {
    var v := t(Vec3(p.x, p.y, p.z));
    var r := EncodeRecord(t, p);
    var off := PointFields[i].offset as int;
    var value := if i == 0 then v.x else if i == 1 then v.y else if i == 2 then v.z else p.w;
    assert r[off..off + 4] == LE32(value as int);
    DecodeEncodeLE32(value as int);
  }

  /** Round trip for one record: reading it back gives the transformed point. */
  lemma DecodeEncodeRecord(t: Vec3 -> Vec3, p: Point)
    ensures DecodeRecord(EncodeRecord(t, p)) == Transformed(t, p)
  {
    FieldsDescribeRecord(t, p, 0);
    FieldsDescribeRecord(t, p, 1);
    FieldsDescribeRecord(t, p, 2);
    FieldsDescribeRecord(t, p, 3);
  }

  /** The points the packer emits, in input order: every point that is not the zero vector. */
  function Emitted(isZero: Point -> bool, ps: seq<Point>): (r: seq<Point>)
    ensures |r| <= |ps|
  {
    if ps == [] then []
    else
      var rest := Emitted(isZero, ps[..|ps| - 1]);
      if isZero(ps[|ps| - 1]) then rest else rest + [ps[|ps| - 1]]
  }

  /** Every emitted point is a non-zero point of the input. */
  lemma {:induction false} EmittedSound(isZero: Point -> bool, ps: seq<Point>)
    ensures forall k :: 0 <= k < |Emitted(isZero, ps)| ==>
              !isZero(Emitted(isZero, ps)[k]) && Emitted(isZero, ps)[k] in ps
  {
    if ps != [] {
      var init := ps[..|ps| - 1];
      EmittedSound(isZero, init);
      assert forall q :: q in init ==> q in ps;
    }
  }

  /** The positions of the zero-vector points of `ps`. */
  function Sentinels(isZero: Point -> bool, ps: seq<Point>): set<nat>
  {
    set i: nat | i < |ps| && isZero(ps[i])
  }

  /** The number of emitted points is the number of input points less the number of zero vectors. */
  lemma {:induction false} EmittedCount(isZero: Point -> bool, ps: seq<Point>)
    ensures |Emitted(isZero, ps)| == |ps| - |Sentinels(isZero, ps)|
  {
    if ps != [] {
      var n := |ps| - 1;
      var init := ps[..n];
      EmittedCount(isZero, init);
      var below := Sentinels(isZero, init);
      assert n !in below;
      if isZero(ps[n]) {
        assert Sentinels(isZero, ps) == below + {n};
      } else {
        assert Sentinels(isZero, ps) == below;
      }
    }
  }

  /** Emitting from a prefix of the input gives a prefix of the output. */
  lemma {:induction false} EmittedPrefix(isZero: Point -> bool, ps: seq<Point>, i: nat)
    requires i <= |ps|
    ensures Emitted(isZero, ps[..i]) <= Emitted(isZero, ps)
  {
    if i < |ps| {
      var init := ps[..|ps| - 1];
      assert ps[..i] == init[..i];
      EmittedPrefix(isZero, init, i);
    } else {
      assert ps[..i] == ps;
    }
  }

  /** One more input point extends the emitted points by that point, unless it is the zero vector. */
  lemma EmittedStep(isZero: Point -> bool, ps: seq<Point>, i: nat)
    requires i < |ps|
    ensures Emitted(isZero, ps[..i + 1]) ==
      if isZero(ps[i]) then Emitted(isZero, ps[..i]) else Emitted(isZero, ps[..i]) + [ps[i]]
  {
    assert ps[..i + 1][..i] == ps[..i];
  }

  /**
   * Input order is kept: a non-zero input point lands at the position
   * given by the number of non-zero points before it.
   */
  lemma EmittedAt(isZero: Point -> bool, ps: seq<Point>, i: nat)
    requires i < |ps| && !isZero(ps[i])
    ensures |Emitted(isZero, ps[..i])| < |Emitted(isZero, ps)|
    ensures Emitted(isZero, ps)[|Emitted(isZero, ps[..i])|] == ps[i]
  {
    var upTo := ps[..i + 1];
    assert upTo[..i] == ps[..i];
    EmittedPrefix(isZero, ps, i + 1);
  }

  /** The packed records of `ps`, one after another. */
  function Pack(t: Vec3 -> Vec3, ps: seq<Point>): (r: seq<byte>)
    ensures |r| == PointStep as int * |ps|
  {
    if ps == [] then [] else Pack(t, ps[..|ps| - 1]) + EncodeRecord(t, ps[|ps| - 1])
  }

  /** Packing one more point appends its record. */
  lemma PackSnoc(t: Vec3 -> Vec3, ps: seq<Point>, p: Point)
    ensures Pack(t, ps + [p]) == Pack(t, ps) + EncodeRecord(t, p)
  {
  }

  /** The `k`-th record of a packing is the record of the `k`-th point. */
  lemma {:induction false} PackRecordAt(t: Vec3 -> Vec3, ps: seq<Point>, k: nat)
    requires k < |ps|
    ensures Pack(t, ps)[16 * k..16 * k + 16] == EncodeRecord(t, ps[k])
  {
    var init := ps[..|ps| - 1];
    if k < |ps| - 1 {
      PackRecordAt(t, init, k);
      assert Pack(t, ps)[..16 * |init|] == Pack(t, init);
      assert ps[k] == init[k];
    }
  }

  /** Reads packed bytes record by record. */
  function Unpack(data: seq<byte>): seq<Point>
    requires |data| % 16 == 0
  {
    seq(|data| / 16, k requires 0 <= k < |data| / 16 => DecodeRecord(data[16 * k..16 * k + 16]))
  }

  /** Round trip for a packing: reading it back gives the transformed points in order. */
  lemma UnpackPack(t: Vec3 -> Vec3, ps: seq<Point>)
    ensures |Pack(t, ps)| % 16 == 0
    ensures Unpack(Pack(t, ps)) == seq(|ps|, k requires 0 <= k < |ps| => Transformed(t, ps[k]))
  {
    var bytes := Pack(t, ps);
    assert |bytes| / 16 == |ps|;
    forall k | 0 <= k < |ps|
      ensures DecodeRecord(bytes[16 * k..16 * k + 16]) == Transformed(t, ps[k])
    {
      PackRecordAt(t, ps, k);
      DecodeEncodeRecord(t, ps[k]);
    }
  }

  /** The message the packer publishes for one reading. */
  function CloudMessage(isZero: Point -> bool, d: PointCloudData): (msg: PointCloudMsg)
    requires PointStep as int * |d.points| < INT_LIMIT
    ensures msg.header == Header(d.time, d.frame)
    ensures msg.height == 1 && msg.pointStep == PointStep && msg.fields == PointFields
    ensures !msg.isBigendian && msg.isDense
    ensures msg.width as int == |Emitted(isZero, d.points)| == |d.points| - |Sentinels(isZero, d.points)|
    ensures msg.rowStep as int == msg.width as int * msg.pointStep as int == |msg.data|
    ensures Unpack(msg.data) == seq(msg.width as int, k requires 0 <= k < msg.width as int =>
                                      Transformed(d.transform, Emitted(isZero, d.points)[k]))
  {
    var emitted := Emitted(isZero, d.points);
    EmittedCount(isZero, d.points);
    UnpackPack(d.transform, emitted);
    var count := |emitted| as u32;
    PointCloudMsg(
      Header(d.time, d.frame),
      1,
      count,
      PointFields,
      false,
      PointStep,
      count * PointStep,
      Pack(d.transform, emitted),
      true)
  }

  /**
   * A worked reading: points (1, 2, 3, 0.5), the zero vector and
   * (4, 5, 6, 1.0) under the identity transform give two records holding
   * the floats 1, 2, 3, 0.5, 4, 5, 6, 1.0 in that order.
   */
  lemma TwoOfThreePoints(isZero: Point -> bool, identity: Vec3 -> Vec3, time: Stamp, frame: string)
    requires forall v :: identity(v) == v
    requires isZero(Point(0, 0, 0, 0))
    requires !isZero(Point(0x3F80_0000, 0x4000_0000, 0x4040_0000, 0x3F00_0000))
    requires !isZero(Point(0x4080_0000, 0x40A0_0000, 0x40C0_0000, 0x3F80_0000))
    ensures var d := PointCloudData(
              [Point(0x3F80_0000, 0x4000_0000, 0x4040_0000, 0x3F00_0000),
               Point(0, 0, 0, 0),
               Point(0x4080_0000, 0x40A0_0000, 0x40C0_0000, 0x3F80_0000)],
              identity, time, frame);
            var msg := CloudMessage(isZero, d);
            msg.width == 2 && msg.rowStep == 32 &&
            msg.data == LE32(0x3F80_0000) + LE32(0x4000_0000) + LE32(0x4040_0000) + LE32(0x3F00_0000)
                      + LE32(0x4080_0000) + LE32(0x40A0_0000) + LE32(0x40C0_0000) + LE32(0x3F80_0000)
  {
    var p1 := Point(0x3F80_0000, 0x4000_0000, 0x4040_0000, 0x3F00_0000);
    var p3 := Point(0x4080_0000, 0x40A0_0000, 0x40C0_0000, 0x3F80_0000);
    TwoOfThreeEmitted(isZero, p1, Point(0, 0, 0, 0), p3);
    PackPair(identity, p1, p3);
    assert identity(Vec3(p1.x, p1.y, p1.z)) == Vec3(p1.x, p1.y, p1.z);
    assert identity(Vec3(p3.x, p3.y, p3.z)) == Vec3(p3.x, p3.y, p3.z);
  }

  /** Of three points of which only the middle one is the zero vector, the outer two are emitted. */
  lemma TwoOfThreeEmitted(isZero: Point -> bool, p1: Point, p2: Point, p3: Point)
    requires !isZero(p1) && isZero(p2) && !isZero(p3)
    ensures Emitted(isZero, [p1, p2, p3]) == [p1, p3]
  {
    var ps := [p1, p2, p3];
    assert ps[..0] == [] && ps[..3] == ps;
    EmittedStep(isZero, ps, 0);
    assert Emitted(isZero, ps[..1]) == [p1];
    EmittedStep(isZero, ps, 1);
    assert Emitted(isZero, ps[..2]) == [p1];
    EmittedStep(isZero, ps, 2);
    assert [p1] + [p3] == [p1, p3];
  }

  /** Packing two points gives their two records. */
  lemma PackPair(t: Vec3 -> Vec3, p1: Point, p3: Point)
    ensures Pack(t, [p1, p3]) == EncodeRecord(t, p1) + EncodeRecord(t, p3)
  {
    PackSnoc(t, [], p1);
    PackSnoc(t, [p1], p3);
    assert [p1] + [p3] == [p1, p3];
  }

  /**
   * Two stores that place `position` then `intensity` at `offset` leave the
   * record `position + intensity` there and the rest of the buffer as it was.
   */
  lemma StoreRecord(before: seq<byte>, middle: seq<byte>, after: seq<byte>, offset: nat,
                    position: seq<byte>, intensity: seq<byte>)
    requires |position| == 12 && |intensity| == 4
    requires |before| == |middle| == |after| && offset + 16 <= |before|
    requires middle[..offset] == before[..offset] && middle[offset..offset + 12] == position
    requires middle[offset + 12..] == before[offset + 12..]
    requires after[..offset + 12] == middle[..offset + 12] && after[offset + 12..offset + 16] == intensity
    requires after[offset + 16..] == middle[offset + 16..]
    ensures after[..offset + 16] == before[..offset] + position + intensity
    ensures after[offset + 16..] == before[offset + 16..]
  {
  }

  /**
   * The two stores of one point: its transformed position at `offset`,
   * then its intensity at `offset + 12`. Nothing outside the record changes.
   */
  method StoreAt(buf: array<byte>, offset: nat, position: Vec3, intensity: Float32)
    requires offset + PointStep as int <= buf.Length
    modifies buf
    ensures buf[..offset] == old(buf[..offset])
    ensures buf[offset..offset + 16] == Vec3Bytes(position) + LE32(intensity as int)
    ensures buf[offset + 16..] == old(buf[offset + 16..])
  {
    ghost var before := buf[..];
    BlockCopy(Vec3Bytes(position), buf, offset);
    ghost var middle := buf[..];
    BlockCopy(LE32(intensity as int), buf, offset + 12);
    StoreRecord(before, middle, buf[..], offset, Vec3Bytes(position), LE32(intensity as int));
    assert buf[..offset] == buf[..offset + 16][..offset];
    assert buf[offset..offset + 16] == buf[..offset + 16][offset..];
  }

  /**
   * The packing loop of the point-cloud writer: for each input point in
   * order, skips it when it is the zero vector, and otherwise stores its
   * transformed position at `offset` and its intensity at `offset + 12`,
   * then advances `offset` by one record. Returns the number of records
   * stored; the bytes after them are not written.
   */
  method PackPoints(buf: array<byte>, points: seq<Point>, transform: Vec3 -> Vec3, isZero: Point -> bool)
    returns (count: nat)
    requires buf.Length == PointStep as int * |points|
    modifies buf
    ensures count == |Emitted(isZero, points)|
    ensures buf[..PointStep as int * count] == Pack(transform, Emitted(isZero, points))
    ensures buf[PointStep as int * count..] == old(buf[PointStep as int * count..])
  {
    var n := |points|;
    count := 0;
    var offset := 0;
    ghost var done: seq<Point> := [];
    for i := 0 to n
      invariant count <= i
      invariant offset == PointStep as int * count
      invariant done == Emitted(isZero, points[..i]) && count == |done|
      invariant buf[..offset] == Pack(transform, done)
      invariant buf[offset..] == old(buf[offset..])
    {
      var point := points[i];
      EmittedStep(isZero, points, i);
      if isZero(point) {
        continue;
      }
      ghost var before := buf[..];
      var pos := Vec3(point.x, point.y, point.z);
      var intensity := point.w;
      StoreAt(buf, offset, transform(pos), intensity);
      PackSnoc(transform, done, point);
      assert buf[..offset + 16] == buf[..offset] + buf[offset..offset + 16];
      assert buf[offset + 16..] == before[offset..][16..];
      done := done + [point];
      offset := offset + PointStep as int;
      count := count + 1;
    }
    assert points[..n] == points;
  }

  /**
   * A point-cloud publisher. `buffer` holds the packed records of the last
   * reading and is reused when the next reading has as many points.
   */
  class PointCloudWriter {
    const writer: FrameWriter<PointCloudMsg>
    /** Whether a point equals the zero vector. */
    const isZero: Point -> bool
    var buffer: array?<byte>

    constructor (topic: seq<byte>, codec: Codec<PointCloudMsg>, isZero: Point -> bool)
      ensures writer.topic == topic && writer.codec == codec && this.isZero == isZero
      ensures buffer == null
    {
      writer := new FrameWriter(topic, codec);
      this.isZero := isZero;
      buffer := null;
    }

    /**
     * Packs the reading into `buffer`, builds its message and frames it.
     * The buffer ends up with exactly 16 bytes per input point; it is the same
     * array as before when that size already matched. The records take up
     * the first `16 * width` bytes; the bytes after them are not written.
     * The frame is a new array, never the buffer, so reusing the buffer in a
     * later call leaves an earlier frame's bytes as they were.
     */
    method Write(d: PointCloudData) returns (msg: PointCloudMsg, frame: array<byte>)
      requires PointStep as int * |d.points| < INT_LIMIT
      requires 9 + |writer.topic| + |writer.codec.bytes(CloudMessage(isZero, d))| < INT_LIMIT
      modifies this, buffer
      ensures buffer != null && buffer.Length == PointStep as int * |d.points|
      ensures old(buffer) != null && old(buffer.Length) == buffer.Length ==> buffer == old(buffer)
      ensures buffer != old(buffer) ==> fresh(buffer)
      ensures msg == CloudMessage(isZero, d)
      ensures |msg.data| <= buffer.Length && buffer[..|msg.data|] == msg.data
      ensures buffer == old(buffer) ==> buffer[|msg.data|..] == old(buffer[|msg.data|..])
      ensures buffer != old(buffer) ==> forall j :: |msg.data| <= j < buffer.Length ==> buffer[j] == 0
      ensures fresh(frame) && frame[..] == EncodeFrame(Frame(Publish, writer.topic, writer.codec.bytes(msg)))
      ensures frame != buffer
    {
      var n := |d.points|;
      if buffer == null || buffer.Length != PointStep as int * n {
        buffer := new byte[PointStep as int * n](_ => 0);
      }
      var count := PackPoints(buffer, d.points, d.transform, isZero);

      msg := PointCloudMsg(
        Header(d.time, d.frame),
        1,
        count as u32,
        PointFields,
        false,
        PointStep,
        (count as u32) * PointStep,
        buffer[..count * PointStep as int],
        true);
      frame := writer.Write(msg);
    }
  }
}
