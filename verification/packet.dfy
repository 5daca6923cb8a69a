/**
 * The wire packet sent to every stream on each tick: an 8-byte big-endian
 * timestamp, a 4-byte big-endian payload length, then the payload bytes.
 * `CreateSyncPacket` is the sender's framer; `Decode` is the receiver-side
 * inverse that the framer is proved against.
 */
module Packet {
  import opened Base

  datatype FramerError =
    | RangeError       // a value does not fit its big-endian field (Buffer's writeBigUInt64BE / writeUInt32BE throw)
    | MalformedPacket  // a received packet is too short or its length field disagrees with its size

  datatype Frame = Frame(timestamp: nat, payload: seq<byte>)

  const TimestampWidth: nat := 8
  const LengthWidth: nat := 4
  const HeaderWidth: nat := TimestampWidth + LengthWidth

  /** 256^width: the first value that does not fit in `width` bytes. */
  function Pow256(width: nat): (r: nat)
    ensures r > 0
  {
    if width == 0 then 1 else 256 * Pow256(width - 1)
  }

  /** The unsigned integer whose big-endian digits are `bs`. */
  function FromBigEndian(bs: seq<byte>): (n: nat)
    ensures n < Pow256(|bs|)
  {
    if bs == [] then 0
    else
      var high := FromBigEndian(bs[..|bs| - 1]);
      assert high + 1 <= Pow256(|bs| - 1);
      assert (high + 1) * 256 <= Pow256(|bs| - 1) * 256;
      high * 256 + bs[|bs| - 1]
  }

  /** `n` written as exactly `width` big-endian bytes. */
  function ToBigEndian(n: nat, width: nat): (bs: seq<byte>)
    requires n < Pow256(width)
    ensures |bs| == width
    ensures FromBigEndian(bs) == n
  {
    if width == 0 then []
    else
      var high := ToBigEndian(n / 256, width - 1);
      var bs := high + [n % 256];
      assert bs[..|bs| - 1] == high;
      bs
  }

  /** Every `width`-byte string is the encoding of the value it denotes. */
  lemma {:induction false} ToBigEndianOfValue(bs: seq<byte>)
    ensures ToBigEndian(FromBigEndian(bs), |bs|) == bs
  {
    if bs != [] {
      var init := bs[..|bs| - 1];
      ToBigEndianOfValue(init);
      var n := FromBigEndian(bs);
      assert n / 256 == FromBigEndian(init);
      assert n % 256 == bs[|bs| - 1];
      assert bs == init + [bs[|bs| - 1]];
    }
  }

  /** createSyncPacket: header and payload concatenated, or the RangeError Buffer throws. */
  function CreateSyncPacket(chunk: seq<byte>, timestamp: int): (r: Result<seq<byte>, FramerError>)
    ensures r.Ok? <==> 0 <= timestamp < Pow256(TimestampWidth) && |chunk| < Pow256(LengthWidth)
    ensures r.Err? ==> r.error == RangeError
    ensures r.Ok? ==> |r.value| == HeaderWidth + |chunk|
  {
    if timestamp < 0 || timestamp >= Pow256(TimestampWidth) then Err(RangeError)
    else if |chunk| >= Pow256(LengthWidth) then Err(RangeError)
    else Ok(ToBigEndian(timestamp, TimestampWidth) + ToBigEndian(|chunk|, LengthWidth) + chunk)
  }

  /** The receiver's decoder: the exact inverse of the framer, rejecting malformed input. */
  function Decode(packet: seq<byte>): (r: Result<Frame, FramerError>)
    ensures r.Ok? <==> |packet| >= HeaderWidth && FromBigEndian(packet[TimestampWidth..HeaderWidth]) == |packet| - HeaderWidth
    ensures r.Err? ==> r.error == MalformedPacket
    ensures r.Ok? ==> |packet| == HeaderWidth + |r.value.payload| && r.value.timestamp < Pow256(TimestampWidth)
  {
    if |packet| < HeaderWidth then Err(MalformedPacket)
    else if FromBigEndian(packet[TimestampWidth..HeaderWidth]) != |packet| - HeaderWidth then Err(MalformedPacket)
    else Ok(Frame(FromBigEndian(packet[..TimestampWidth]), packet[HeaderWidth..]))
  }

  /** Byte layout of a packet: timestamp in bytes 0..8, payload length in 8..12, payload from 12. */
  lemma PacketLayout(chunk: seq<byte>, timestamp: nat)
    requires timestamp < Pow256(TimestampWidth) && |chunk| < Pow256(LengthWidth)
    ensures CreateSyncPacket(chunk, timestamp).Ok?
    ensures var p := CreateSyncPacket(chunk, timestamp).value;
      && |p| == HeaderWidth + |chunk|
      && p[..TimestampWidth] == ToBigEndian(timestamp, TimestampWidth)
      && p[TimestampWidth..HeaderWidth] == ToBigEndian(|chunk|, LengthWidth)
      && p[HeaderWidth..] == chunk
  {
  }

  /** Reading the header back yields the timestamp and the chunk that were framed. */
  lemma DecodeCreateSyncPacket(chunk: seq<byte>, timestamp: nat)
    requires timestamp < Pow256(TimestampWidth) && |chunk| < Pow256(LengthWidth)
    ensures CreateSyncPacket(chunk, timestamp).Ok?
    ensures Decode(CreateSyncPacket(chunk, timestamp).value) == Ok(Frame(timestamp, chunk))
  {
    PacketLayout(chunk, timestamp);
  }

  /** Every packet the decoder accepts is exactly what the framer produces for its contents. */
  lemma CreateSyncPacketOfDecoded(packet: seq<byte>)
    requires Decode(packet).Ok?
    ensures var f := Decode(packet).value;
      CreateSyncPacket(f.payload, f.timestamp) == Ok(packet)
  {
    var f := Decode(packet).value;
    ToBigEndianOfValue(packet[..TimestampWidth]);
    ToBigEndianOfValue(packet[TimestampWidth..HeaderWidth]);
    assert packet == packet[..TimestampWidth] + packet[TimestampWidth..HeaderWidth] + packet[HeaderWidth..];
  }

  /** Distinct (chunk, timestamp) pairs never share a packet. */
  lemma CreateSyncPacketInjective(c1: seq<byte>, t1: nat, c2: seq<byte>, t2: nat)
    requires CreateSyncPacket(c1, t1).Ok? && CreateSyncPacket(c2, t2).Ok?
    requires CreateSyncPacket(c1, t1) == CreateSyncPacket(c2, t2)
    ensures c1 == c2 && t1 == t2
  {
    DecodeCreateSyncPacket(c1, t1);
    DecodeCreateSyncPacket(c2, t2);
  }

  /** Six zero bytes: the high part of every small value. */
  lemma ZeroBytes()
    ensures ToBigEndian(0, 6) == [0, 0, 0, 0, 0, 0]
  {
    assert ToBigEndian(0, 1) == [0];
    assert ToBigEndian(0, 2) == [0, 0];
    assert ToBigEndian(0, 3) == [0, 0, 0];
    assert ToBigEndian(0, 4) == [0, 0, 0, 0];
    assert ToBigEndian(0, 5) == [0, 0, 0, 0, 0];
  }

  /** The timestamp 1000 as 8 big-endian bytes. */
  lemma Timestamp1000()
    ensures 1000 < Pow256(8) && ToBigEndian(1000, 8) == [0, 0, 0, 0, 0, 0, 3, 232]
  {
    ZeroBytes();
    assert ToBigEndian(3, 7) == [0, 0, 0, 0, 0, 0, 3];
  }

  /** The framed payload "ABCD" at timestamp 1000. */
  lemma ScenarioPacket()
    ensures var p := CreateSyncPacket([65, 66, 67, 68], 1000);
      p.Ok? && p.value == [0, 0, 0, 0, 0, 0, 3, 232, 0, 0, 0, 4, 65, 66, 67, 68]
  {
    Timestamp1000();
    assert Pow256(8) == 0x1_0000_0000_0000_0000;
    assert ToBigEndian(4, 4) == [0, 0, 0, 4];
  }
}
