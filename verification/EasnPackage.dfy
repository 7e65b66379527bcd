/** The packet layout (src/core/modules/easn/easn_package.h and .cpp). */
module EasnPackage {
  import opened Crc16
  import opened CrcCheck

  const MAX_SIZE: nat := 16384

  const TYPE_INIT: Byte := 1

  const SUCCESS: nat := 0
  const CRC_ERROR: nat := 1

  /** Header, type, index and length before the payload, and the CRC after it. */
  const MIN_SIZE: nat := 11

  const ACK_SIZE: nat := 13

  // ---------------------------------------------------------------------
  // Big-endian fields
  // ---------------------------------------------------------------------

  /** ntohs over two bytes. */
  function Ntohs(high: Byte, low: Byte): (n: nat)
    ensures n < 0x1_0000
  {
    256 * (high as int) + (low as int)
  }

  /** ntohl over four bytes. */
  function Ntohl(bytes: seq<Byte>): (n: nat)
    requires |bytes| == 4
    ensures n < 0x1_0000_0000
  {
    0x1_0000 * Ntohs(bytes[0], bytes[1]) + Ntohs(bytes[2], bytes[3])
  }

  /** The byte with the given value, counted up from zero. */
  function ByteOf(n: nat): Byte
    requires n < 256
  {
    if n == 0 then 0 else ByteOf(n - 1) + 1
  }

  function Htons(n: nat): (bytes: seq<Byte>)
    requires n < 0x1_0000
    ensures |bytes| == 2
  {
    [ByteOf(n / 256), ByteOf(n % 256)]
  }

  function Htonl(n: nat): (bytes: seq<Byte>)
    requires n < 0x1_0000_0000
    ensures |bytes| == 4
  {
    Htons(n / 0x1_0000) + Htons(n % 0x1_0000)
  }

  lemma NextByte(b: Byte)
    requires b != 255
    ensures (b + 1) as int == b as int + 1
  {
  }

  lemma {:induction false} ByteValue(n: nat)
    requires n < 256
    ensures ByteOf(n) as int == n
  {
    if n > 0 {
      ByteValue(n - 1);
      NextByte(ByteOf(n - 1));
    }
  }

  lemma SameValue(b: Byte, c: Byte)
    requires b as int == c as int
    ensures b == c
  {
  }

  lemma NtohsHtons(n: nat)
    requires n < 0x1_0000
    ensures Ntohs(Htons(n)[0], Htons(n)[1]) == n
  {
    ByteValue(n / 256);
    ByteValue(n % 256);
  }

  lemma NtohlHtonl(n: nat)
    requires n < 0x1_0000_0000
    ensures Ntohl(Htonl(n)) == n
  {
    NtohsHtons(n / 0x1_0000);
    NtohsHtons(n % 0x1_0000);
  }

  /** Network order: the first byte weighs most. */
  lemma HtonlBigEndian(n: nat)
    requires n < 0x1_0000_0000
    ensures var b := Htonl(n);
            n == 0x100_0000 * (b[0] as int) + 0x1_0000 * (b[1] as int) + 0x100 * (b[2] as int) + (b[3] as int)
  {
    HtonsBigEndian(n / 0x1_0000);
    HtonsBigEndian(n % 0x1_0000);
  }

  lemma HtonsBigEndian(n: nat)
    requires n < 0x1_0000
    ensures n == 0x100 * (Htons(n)[0] as int) + (Htons(n)[1] as int)
  {
    ByteValue(n / 256);
    ByteValue(n % 256);
  }

  // ---------------------------------------------------------------------
  // packet_t: MAX_SIZE bytes read through fixed offsets
  // ---------------------------------------------------------------------

  type Packet = p: seq<Byte> | |p| == MAX_SIZE witness seq(MAX_SIZE, _ => 0)

  /** The length field of a packet_t. */
  function Declared(p: Packet): (n: nat)
    ensures n < 0x1_0000
  {
    Ntohs(p[7], p[8])
  }

  function SizeofPacket(p: Packet): (n: nat)
    ensures n <= MAX_SIZE
  {
    if Declared(p) > MAX_SIZE then MAX_SIZE else Declared(p)
  }

  /** The part of the buffer that the packet's length covers. */
  function Frame(p: Packet): (frame: seq<Byte>)
    ensures |frame| == SizeofPacket(p)
  {
    p[..SizeofPacket(p)]
  }

  /** A packet ends where its length field says, or with the buffer of 16384 bytes. */
  lemma FrameEnds(p: Packet)
    ensures |p| == 16384
    ensures var n := 256 * (p[7] as int) + (p[8] as int); Frame(p) == if n <= 16384 then p[..n] else p
  {
    if Declared(p) > 16384 { assert p[..16384] == p; }
  }

  function PacketType(p: Packet): Byte {
    p[2]
  }

  // ---------------------------------------------------------------------
  // Messages and their frames, as a client builds them
  // ---------------------------------------------------------------------

  datatype Message = Message(kind: Byte, index: nat, payload: seq<Byte>)
  {
    predicate Fits() {
      index < 0x1_0000_0000 && |payload| <= MAX_SIZE - MIN_SIZE
    }
  }

  function Body(m: Message): (body: seq<Byte>)
    requires m.Fits()
    ensures |body| == |m.payload| + 9
  {
    [0xaa, 0x55, m.kind] + Htonl(m.index) + Htons(|m.payload| + MIN_SIZE) + m.payload
  }

  function Encode(m: Message): (frame: seq<Byte>)
    requires m.Fits()
    ensures |frame| == |m.payload| + MIN_SIZE
  {
    Body(m) + CrcBytes(Body(m))
  }

  /** The message in a packet_t whose length covers at least an empty payload. */
  function Decode(p: Packet): Message
    requires SizeofPacket(p) >= MIN_SIZE
  {
    Message(p[2], Ntohl(p[3..7]), p[9..SizeofPacket(p) - 2])
  }

  /** A buffer that starts with a frame is read as that frame, whatever follows it. */
  lemma DecodeEncode(m: Message, p: Packet)
    requires m.Fits() && Encode(m) <= p
    ensures SizeofPacket(p) == |Encode(m)| && Declared(p) == |Encode(m)|
    ensures Frame(p) == Encode(m) && CrcOk(Frame(p)) && Decode(p) == m
    ensures p[0] == 0xaa && p[1] == 0x55
  {
    var f := Encode(m);
    FieldsOfEncode(m);
    SamePrefix(f, p);
    EncodeOk(m);
    FrameIsPrefix(f, p);
  }

  lemma EncodeOk(m: Message)
    requires m.Fits()
    ensures CrcOk(Encode(m))
  {
    CrcOkIff(Body(m), CrcBytes(Body(m)));
  }

  lemma FrameIsPrefix(f: seq<Byte>, p: Packet)
    requires f <= p && |f| == SizeofPacket(p)
    ensures Frame(p) == f
  {
  }

  lemma SamePrefix(f: seq<Byte>, p: seq<Byte>)
    requires |f| >= MIN_SIZE && f <= p
    ensures p[0] == f[0] && p[1] == f[1] && p[2] == f[2] && p[7] == f[7] && p[8] == f[8]
    ensures p[3..7] == f[3..7] && p[9..|f| - 2] == f[9..|f| - 2]
  {
    assert p[..|f|] == f;
    forall i | 0 <= i < |f| ensures p[i] == f[i] { assert p[..|f|][i] == f[i]; }
  }

  lemma FieldsOfEncode(m: Message)
    requires m.Fits()
    ensures var f := Encode(m);
            && f[0] == 0xaa && f[1] == 0x55 && f[2] == m.kind
            && Ntohl(f[3..7]) == m.index && Ntohs(f[7], f[8]) == |f| && f[9..|f| - 2] == m.payload
  {
    var f := Encode(m);
    var size := |m.payload| + MIN_SIZE;
    NtohlHtonl(m.index);
    NtohsHtons(size);
    assert f == [0xaa, 0x55, m.kind] + Htonl(m.index) + Htons(size) + m.payload + CrcBytes(Body(m));
    assert f[3..7] == Htonl(m.index);
    assert f[7] == Htons(size)[0] && f[8] == Htons(size)[1];
    assert f[9..|f| - 2] == m.payload;
  }

  // ---------------------------------------------------------------------
  // Acknowledgements
  // ---------------------------------------------------------------------

  /** The bytes of an ack_t before its checksum, for the packet it answers. */
  function AckBody(p: Packet, code: nat): (body: seq<Byte>)
    requires code < 0x1_0000
    ensures |body| == ACK_SIZE - 2
  {
    [0xaa, 0x55, p[2]] + p[3..7] + [0x00, 0x0d] + Htons(code)
  }

  function AckBytes(p: Packet, code: nat): (ack: seq<Byte>)
    requires code < 0x1_0000
    ensures |ack| == ACK_SIZE
  {
    AckBody(p, code) + CrcBytes(AckBody(p, code))
  }

  lemma HtonlNtohl(bytes: seq<Byte>, n: nat)
    requires |bytes| == 4 && n == Ntohl(bytes)
    ensures Htonl(n) == bytes
  {
    var high, low := Ntohs(bytes[0], bytes[1]), Ntohs(bytes[2], bytes[3]);
    HtonsNtohs(bytes[0], bytes[1]);
    HtonsNtohs(bytes[2], bytes[3]);
    assert n == 0x1_0000 * high + low;
    HtonlOfHalves(high, low, n);
    JoinPairs(bytes, Htons(high), Htons(low));
  }

  lemma JoinPairs(bytes: seq<Byte>, a: seq<Byte>, b: seq<Byte>)
    requires |bytes| == 4 && a == [bytes[0], bytes[1]] && b == [bytes[2], bytes[3]]
    ensures bytes == a + b
  {
  }

  lemma HtonlOfHalves(high: nat, low: nat, n: nat)
    requires high < 0x1_0000 && low < 0x1_0000 && n == 0x1_0000 * high + low
    ensures Htonl(n) == Htons(high) + Htons(low)
  {
    Halves(high, low);
  }

  lemma Halves(high: nat, low: nat)
    requires low < 0x1_0000
    ensures (0x1_0000 * high + low) / 0x1_0000 == high && (0x1_0000 * high + low) % 0x1_0000 == low
  {
  }

  lemma HtonsNtohs(high: Byte, low: Byte)
    ensures Htons(Ntohs(high, low)) == [high, low]
  {
    var n := Ntohs(high, low);
    assert n / 256 == high as int && n % 256 == low as int;
    ByteIdentity(high);
    ByteIdentity(low);
  }

  lemma ByteIdentity(b: Byte)
    ensures ByteOf(b as int) == b
  {
    ByteValue(b as int);
    SameValue(ByteOf(b as int), b);
  }

  /** An acknowledgement is a frame of the same protocol, carrying the code as its payload. */
  lemma AckIsFrame(p: Packet, code: nat)
    requires code < 0x1_0000
    ensures var m := Message(PacketType(p), Ntohl(p[3..7]), Htons(code));
            m.Fits() && AckBytes(p, code) == Encode(m)
  {
    var m := Message(PacketType(p), Ntohl(p[3..7]), Htons(code));
    HtonlNtohl(p[3..7], Ntohl(p[3..7]));
    assert Htons(ACK_SIZE) == [0x00, 0x0d];
    assert Body(m) == AckBody(p, code);
  }

  /** The acknowledgement of p with the given code, byte by byte. */
  predicate AckOf(bytes: seq<Byte>, p: Packet, code: Byte) {
    && |bytes| == 13 && bytes[..3] == [0xaa, 0x55, p[2]] && bytes[3..7] == p[3..7]
    && bytes[7..11] == [0x00, 0x0d, 0x00, code] && CrcOk(bytes)
  }

  lemma AckBytesAre(p: Packet, code: nat, low: Byte)
    requires (code == 0 && low == 0) || (code == 1 && low == 1)
    ensures AckOf(AckBytes(p, code), p, low)
  {
    CrcOkIff(AckBody(p, code), CrcBytes(AckBody(p, code)));
    AckFields(p, code, low, CrcBytes(AckBody(p, code)));
  }

  lemma AckFields(p: Packet, code: nat, low: Byte, crc: seq<Byte>)
    requires (code == 0 && low == 0) || (code == 1 && low == 1)
    ensures var bytes := AckBody(p, code) + crc;
            bytes[..3] == [0xaa, 0x55, p[2]] && bytes[3..7] == p[3..7] && bytes[7..11] == [0x00, 0x0d, 0x00, low]
  {
    assert ByteOf(0) == 0 && ByteOf(1) == ByteOf(0) + 1;
    assert Htons(code) == [0x00, low];
    assert (AckBody(p, code) + crc)[7..11] == [0x00, 0x0d] + Htons(code);
  }

  /** fill_ack_packet: the template's length field decides where the checksum goes. */
  method FillAckPacket(dest: array<Byte>, src: array<Byte>, code: nat)
    requires dest.Length == ACK_SIZE && src.Length == MAX_SIZE && dest != src && code < 0x1_0000
    requires dest[0] == 0xaa && dest[1] == 0x55 && dest[7] == 0x00 && dest[8] == 0x0d
    modifies dest
    ensures dest[..] == AckBytes(src[..], code)
  {
    dest[2] := src[2];
    dest[3], dest[4], dest[5], dest[6] := src[3], src[4], src[5], src[6];
    dest[9], dest[10] := ByteOf(code / 256), ByteOf(code % 256);
    var size := Ntohs(dest[7], dest[8]);
    AckBodyBytes(dest[..], src[..], code);
    assert dest[..][..size - 2] == dest[..size - 2];
    FillCrc(dest, size);
    assert dest[size..] == [];
  }

  lemma AckBodyBytes(d: seq<Byte>, p: Packet, code: nat)
    requires |d| == ACK_SIZE && code < 0x1_0000
    requires d[0] == 0xaa && d[1] == 0x55 && d[2] == p[2] && d[3] == p[3] && d[4] == p[4]
    requires d[5] == p[5] && d[6] == p[6] && d[7] == 0x00 && d[8] == 0x0d
    requires d[9] == ByteOf(code / 256) && d[10] == ByteOf(code % 256)
    ensures d[..ACK_SIZE - 2] == AckBody(p, code)
  {
  }

  /** A fresh ack_t, as its member initialiser leaves it. */
  method NewAck() returns (ack: array<Byte>)
    ensures fresh(ack) && ack.Length == ACK_SIZE
    ensures ack[0] == 0xaa && ack[1] == 0x55 && ack[7] == 0x00 && ack[8] == 0x0d
  {
    ack := new Byte[ACK_SIZE](_ => 0x00);
    ack[0], ack[1], ack[7], ack[8] := 0xaa, 0x55, 0x00, 0x0d;
  }

  /** The client's own construction of a frame: fields, payload, then the checksum. */
  method BuildPacket(m: Message) returns (buf: array<Byte>, size: nat)
    requires m.Fits()
    ensures fresh(buf) && buf.Length == MAX_SIZE && size <= MAX_SIZE
    ensures buf[..size] == Encode(m)
  {
    buf := new Byte[MAX_SIZE](_ => 0x00);
    size := |m.payload| + MIN_SIZE;
    var fields := [0xaa, 0x55, m.kind] + Htonl(m.index) + Htons(size);
    CopyInto(buf, 0, fields);
    assert buf[..9] == fields;
    CopyInto(buf, 9, m.payload);
    assert buf[..size - 2] == fields + m.payload == Body(m);
    FillCrc(buf, size);
  }

  /** memcpy into a buffer at an offset. */
  method CopyInto(buf: array<Byte>, offset: nat, bytes: seq<Byte>)
    requires offset + |bytes| <= buf.Length
    modifies buf
    ensures buf[..] == old(buf[..offset]) + bytes + old(buf[offset + |bytes|..])
  {
    for i := 0 to |bytes|
      invariant buf[..] == old(buf[..offset]) + bytes[..i] + old(buf[offset + i..])
    {
      buf[offset + i] := bytes[i];
    }
  }

  // ---------------------------------------------------------------------
  // Headers
  // ---------------------------------------------------------------------

  predicate HeaderAt(buf: seq<Byte>, i: int) {
    0 <= i && i + 1 < |buf| && buf[i] == 0xaa && buf[i + 1] == 0x55
  }

  /** No header begins in [from, to). */
  ghost predicate NoHeader(buf: seq<Byte>, from: int, to: int) {
    forall i :: from <= i < to ==> !HeaderAt(buf, i)
  }

  /** start is the first header position from pos on. */
  ghost predicate FirstHeader(buf: seq<Byte>, pos: nat, start: nat) {
    pos <= start && HeaderAt(buf, start) && NoHeader(buf, pos, start)
  }

  method FindHeaderPosition(buf: array<Byte>, pos: nat, length: nat) returns (r: int)
    requires length <= buf.Length
    ensures r == -1 ==> NoHeader(buf[..length], pos, length)
    ensures r != -1 ==> r >= 0 && FirstHeader(buf[..length], pos, r)
  {
    var i := pos;
    while i < length - 1
      invariant pos <= i
      invariant NoHeader(buf[..length], pos, i)
    {
      if buf[i] == 0xaa && buf[i + 1] == 0x55 {
        return i;
      }
      i := i + 1;
    }
    return -1;
  }
}
