/** The PTP_packet wire format: one flag byte, then the serial number and the
    timestamp, each as four big-endian bytes. */
module Packet {
  import opened Timestamps

  /** Flag values carried in byte 0. */
  const SYNC_PING: u8 := 0
  const DELAY_REQ: u8 := 1
  const DELAY_RESP: u8 := 2
  const MASTER_SELECTION: u8 := 3
  const SET_UNBLOCK_TIME: u8 := 4
  /** Payload sent where a field carries no information. */
  const EMPTY_FIELD: u32 := 0
  const PTP_PACKET_SIZE: nat := 9

  /** The decoded packet. The flag is a full byte: a received frame may carry
      any value there, not only the five known flags. */
  datatype PtpPacket = PtpPacket(flag: u8, serial: u32, timestamp: u32)

  /** One radio datagram as the handlers read it: exactly nine bytes. */
  type Frame = s: seq<u8> | |s| == 9 witness [0, 0, 0, 0, 0, 0, 0, 0, 0]

  /** The value of four bytes read most significant first. */
  function BigEndian(b0: u8, b1: u8, b2: u8, b3: u8): (v: nat)
    ensures v < TWO_32
  {
    b0 * 0x100_0000 + b1 * 0x1_0000 + b2 * 0x100 + b3
  }

  /** The nine bytes `send` writes into its buffer: `serial >> 24`,
      `serial >> 16`, ... each truncated to a byte. */
  function Encode(p: PtpPacket): (f: Frame)
    ensures f[0] == p.flag
  {
    [p.flag,
     Byte(p.serial / 0x100_0000), Byte(p.serial / 0x1_0000), Byte(p.serial / 0x100), Byte(p.serial),
     Byte(p.timestamp / 0x100_0000), Byte(p.timestamp / 0x1_0000), Byte(p.timestamp / 0x100), Byte(p.timestamp)]
  }

  /** The frame carries the flag in byte 0, then the serial and the
      timestamp most significant byte first. */
  lemma {:induction false} EncodeLayout(p: PtpPacket)
    ensures var f := Encode(p);
            f[0] == p.flag &&
            BigEndian(f[1], f[2], f[3], f[4]) == p.serial &&
            BigEndian(f[5], f[6], f[7], f[8]) == p.timestamp
  {
    SplitWord(p.serial);
    SplitWord(p.timestamp);
  }

  /** `toPTP_packet`: the shifts `buffer[i] << 24` are evaluated on a promoted
      int and the sum is stored in a uint32_t, so the composition is taken
      modulo 2^32; four bytes never reach 2^32, so that is the plain
      big-endian value (`DecodeWraps`). */
  function Decode(f: Frame): (p: PtpPacket)
    ensures p.flag == f[0]
  {
    PtpPacket(f[0], BigEndian(f[1], f[2], f[3], f[4]), BigEndian(f[5], f[6], f[7], f[8]))
  }

  /** Decoding agrees with the firmware's arithmetic: the shifted bytes summed
      as an int and reduced modulo 2^32. */
  lemma DecodeWraps(f: Frame)
    ensures Decode(f).serial ==
            Wrap32((f[1] as int) * 0x100_0000 + (f[2] as int) * 0x1_0000 + (f[3] as int) * 0x100 + (f[4] as int))
    ensures Decode(f).timestamp ==
            Wrap32((f[5] as int) * 0x100_0000 + (f[6] as int) * 0x1_0000 + (f[7] as int) * 0x100 + (f[8] as int))
  {
  }

  /** Every frame is the encoding of the packet it decodes to: no two frames
      decode to the same packet. */
  lemma {:induction false} EncodeDecode(f: Frame)
    ensures Encode(Decode(f)) == f
  {
    JoinWord(f[1], f[2], f[3], f[4]);
    JoinWord(f[5], f[6], f[7], f[8]);
  }

  /** The four bytes `send` writes for a word recompose to that word. */
  lemma {:induction false} SplitWord(x: u32)
    ensures BigEndian(Byte(x / 0x100_0000), Byte(x / 0x1_0000), Byte(x / 0x100), Byte(x)) == x
  {
    var q1, r1 := x / 0x100, x % 0x100;
    var q2, r2 := q1 / 0x100, q1 % 0x100;
    var q3, r3 := q2 / 0x100, q2 % 0x100;
    assert x / 0x1_0000 == q2;
    assert x / 0x100_0000 == q3;
    assert q3 < 0x100;
  }

  /** Splitting the value of four bytes gives back those bytes. */
  lemma {:induction false} JoinWord(b0: u8, b1: u8, b2: u8, b3: u8)
    ensures var x := BigEndian(b0, b1, b2, b3);
            Byte(x / 0x100_0000) == b0 && Byte(x / 0x1_0000) == b1 &&
            Byte(x / 0x100) == b2 && Byte(x) == b3
  {
    var x := BigEndian(b0, b1, b2, b3);
    assert x == ((b0 * 0x100 + b1) * 0x100 + b2) * 0x100 + b3;
    assert x / 0x100 == (b0 * 0x100 + b1) * 0x100 + b2;
    assert x / 0x1_0000 == b0 * 0x100 + b1;
    assert x / 0x100_0000 == b0;
  }

  /** Decoding the nine bytes `send` produced gives back the flag, the serial
      and the timestamp, for every byte flag and every 32-bit serial and
      timestamp. */
  lemma {:induction false} DecodeEncode(p: PtpPacket)
    ensures Decode(Encode(p)) == p
  {
    var f := Encode(p);
    var q := Decode(f);
    EncodeLayout(p);
    EncodeDecode(f);
    assert Encode(q) == f;
    assert q.serial == BigEndian(f[1], f[2], f[3], f[4]);
    assert q.timestamp == BigEndian(f[5], f[6], f[7], f[8]);
  }

  /** The frames `send` puts on the air for a sequence of packets. */
  function Frames(ps: seq<PtpPacket>): (fs: seq<Frame>)
    ensures |fs| == |ps|
  {
    seq(|ps|, i requires 0 <= i < |ps| => Encode(ps[i]))
  }

  /** A receiver decodes each frame back to the packet it was sent as. */
  lemma FramesDecode(ps: seq<PtpPacket>)
    ensures forall i :: 0 <= i < |ps| ==> Decode(Frames(ps)[i]) == ps[i]
  {
    forall i | 0 <= i < |ps| ensures Decode(Frames(ps)[i]) == ps[i] {
      DecodeEncode(ps[i]);
    }
  }

  lemma FramesAppend(ps: seq<PtpPacket>, qs: seq<PtpPacket>)
    ensures Frames(ps + qs) == Frames(ps) + Frames(qs)
  {
    assert forall i :: 0 <= i < |ps + qs| ==> Frames(ps + qs)[i] == (Frames(ps) + Frames(qs))[i];
  }
}
