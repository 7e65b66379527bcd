/** Storing a CRC in a packet and checking it (src/core/modules/easn/easn_package.cpp). */
module CrcCheck {
  import opened Crc16

  /** The checksum a packet carries, bit 0 first: its last byte is the low half. */
  function Stored(frame: seq<Byte>): Reg
    requires |frame| >= 2
  {
    ByteBits(frame[|frame| - 1]) + ByteBits(frame[|frame| - 2])
  }

  predicate CrcOk(frame: seq<Byte>)
    requires |frame| >= 2
  {
    Stored(frame) == Crc(frame[..|frame| - 2])
  }

  // ---------------------------------------------------------------------
  // The two checksum bytes
  // ---------------------------------------------------------------------

  /** The byte with the first k of the given bits. */
  function FromBits(bits: seq<bool>, k: nat): Byte
    requires |bits| == 8 && k <= 8
  {
    if k == 0 then 0 else FromBits(bits, k - 1) | (if bits[k - 1] then ByteBit(k - 1) else 0)
  }

  /** The bytes fill_crc stores after the data: high half first. */
  function CrcBytes(data: seq<Byte>): (bytes: seq<Byte>)
    ensures |bytes| == 2
  {
    [FromBits(Crc(data)[8..], 8), FromBits(Crc(data)[..8], 8)]
  }

  predicate IsByteBit(m: Byte) {
    m != 0 && m & (m - 1) == 0
  }

  lemma ByteBitFacts(i: nat)
    requires i < 8
    ensures IsByteBit(ByteBit(i))
    ensures i < 7 ==> ByteBit(i) & 0x80 == 0
  {
    if i == 0 {} else if i == 1 {} else if i == 2 {} else if i == 3 {}
    else if i == 4 {} else if i == 5 {} else if i == 6 {} else { assert i == 7; }
  }

  lemma {:induction false} ByteBitsAscend(k: nat, i: nat)
    requires k < i < 8
    ensures ByteBit(k) < ByteBit(i)
  {
    ByteBitFacts(i - 1);
    DoublesByte(ByteBit(i - 1), ByteBit(i));
    if k < i - 1 { ByteBitsAscend(k, i - 1); }
  }

  lemma DoublesByte(m: Byte, next: Byte)
    requires m != 0 && m & 0x80 == 0 && next == m << 1
    ensures m < next
  {
  }

  lemma ByteMaskOr(r: Byte, on: bool, m: Byte, n: Byte)
    requires IsByteBit(m) && IsByteBit(n)
    ensures ((r | (if on then n else 0)) & m != 0) == (r & m != 0 || (on && m == n))
  {
  }

  lemma BitSet(r: Byte, on: bool, n: nat, i: nat)
    requires n < 8 && i < 8
    ensures TestByte(r | (if on then ByteBit(n) else 0), i) == (TestByte(r, i) || (on && i == n))
  {
    ByteBitFacts(n);
    ByteBitFacts(i);
    ByteMaskOr(r, on, ByteBit(i), ByteBit(n));
    if i < n { ByteBitsAscend(i, n); } else if n < i { ByteBitsAscend(n, i); }
  }

  lemma {:induction false} FromBitsAt(bits: seq<bool>, k: nat, i: nat)
    requires |bits| == 8 && k <= 8 && i < 8
    ensures TestByte(FromBits(bits, k), i) == (i < k && bits[i])
  {
    if k == 0 {
      assert (0 as Byte) & ByteBit(i) == 0;
    } else {
      FromBitsAt(bits, k - 1, i);
      BitSet(FromBits(bits, k - 1), bits[k - 1], k - 1, i);
    }
  }

  lemma ByteFromBits(bits: seq<bool>)
    requires |bits| == 8
    ensures ByteBits(FromBits(bits, 8)) == bits
  {
    forall i | 0 <= i < 8 ensures TestByte(FromBits(bits, 8), i) == bits[i] {
      FromBitsAt(bits, 8, i);
    }
  }

  /** A packet is valid exactly when its last two bytes are the checksum of the others. */
  lemma CrcOkIff(data: seq<Byte>, tail: seq<Byte>)
    requires |tail| == 2
    ensures CrcOk(data + tail) <==> tail == CrcBytes(data)
  {
    var crc := Crc(data);
    assert (data + tail)[..|data|] == data;
    assert (data + tail)[|data|] == tail[0] && (data + tail)[|data| + 1] == tail[1];
    ByteFromBits(crc[8..]);
    ByteFromBits(crc[..8]);
    assert crc == crc[..8] + crc[8..];
    if CrcOk(data + tail) {
      SplitStored(ByteBits(tail[1]), ByteBits(tail[0]), crc[..8], crc[8..]);
      ByteBitsInjective(tail[0], CrcBytes(data)[0]);
      ByteBitsInjective(tail[1], CrcBytes(data)[1]);
      assert tail == CrcBytes(data);
    }
  }

  method LowByte(crc: bv16) returns (b: Byte)
    ensures ByteBits(b) == Word(crc)[..8]
  {
    b := (crc & 0xff) as bv8;
    forall i | 0 <= i < 8 ensures ByteBits(b)[i] == Word(crc)[i] { LowBit(crc, b, i); }
  }

  lemma LowBit(crc: bv16, b: Byte, i: nat)
    requires i < 8 && b == (crc & 0xff) as bv8
    ensures TestByte(b, i) == Test(crc, i)
  {
    SamePower(i);
    LowMask(crc, b, ByteBit(i), Bit(i));
  }

  lemma LowMask(crc: bv16, b: Byte, mask: Byte, wide: bv16)
    requires b == (crc & 0xff) as bv8 && wide == mask as bv16
    ensures (b & mask != 0) == (crc & wide != 0)
  {
  }

  lemma SamePower(i: nat)
    requires i < 8
    ensures Bit(i) == ByteBit(i) as bv16
  {
    if i == 0 {} else if i == 1 {} else if i == 2 {} else if i == 3 {}
    else if i == 4 {} else if i == 5 {} else if i == 6 {} else { assert i == 7; }
  }

  method HighByte(crc: bv16) returns (b: Byte)
    ensures ByteBits(b) == Word(crc)[8..]
  {
    b := LowByte(crc >> 8);
    forall i | 0 <= i < 8 ensures ByteBits(b)[i] == Word(crc)[8 + i] {
      HighBit(crc, i, 8 + i);
      assert ByteBits(b)[i] == Word(crc >> 8)[..8][i];
    }
  }

  lemma HighBit(crc: bv16, i: nat, j: nat)
    requires i < 8 && j == 8 + i
    ensures Test(crc >> 8, i) == Test(crc, j)
  {
    if i == 0 { assert j == 8; } else if i == 1 { assert j == 9; }
    else if i == 2 { assert j == 10; } else if i == 3 { assert j == 11; }
    else if i == 4 { assert j == 12; } else if i == 5 { assert j == 13; }
    else if i == 6 { assert j == 14; } else { assert j == 15; }
  }

  /** A byte is its bits. */
  lemma ByteBitsInjective(a: Byte, b: Byte)
    requires ByteBits(a) == ByteBits(b)
    ensures a == b
  {
    forall i | 0 <= i < 8 ensures TestByte(a, i) == TestByte(b, i) {
      assert ByteBits(a)[i] == ByteBits(b)[i];
    }
    SameTests(a, b);
  }

  lemma SameTests(a: Byte, b: Byte)
    requires forall i :: 0 <= i < 8 ==> TestByte(a, i) == TestByte(b, i)
    ensures a == b
  {
    assert TestByte(a, 0) == TestByte(b, 0) && TestByte(a, 1) == TestByte(b, 1);
    assert TestByte(a, 2) == TestByte(b, 2) && TestByte(a, 3) == TestByte(b, 3);
    assert TestByte(a, 4) == TestByte(b, 4) && TestByte(a, 5) == TestByte(b, 5);
    assert TestByte(a, 6) == TestByte(b, 6) && TestByte(a, 7) == TestByte(b, 7);
  }

  /** The last two bytes of the packet become the CRC of the bytes before them. */
  method FillCrc(buf: array<Byte>, size: nat)
    requires 2 <= size <= buf.Length
    modifies buf
    ensures buf[..] == old(buf[..size - 2]) + CrcBytes(old(buf[..size - 2])) + old(buf[size..])
    ensures CrcOk(buf[..size])
  {
    var crc := ComputeCrc16(buf, size - 2);
    buf[size - 1] := LowByte(crc);
    buf[size - 2] := HighByte(crc);
    assert buf[..size][..size - 2] == buf[..size - 2] == old(buf[..size - 2]);
    assert Word(crc) == Word(crc)[..8] + Word(crc)[8..];
    assert CrcOk(buf[..size]);
    assert buf[..size] == buf[..size - 2] + [buf[size - 2], buf[size - 1]];
    CrcOkIff(buf[..size - 2], [buf[size - 2], buf[size - 1]]);
    assert buf[..] == buf[..size - 2] + [buf[size - 2], buf[size - 1]] + buf[size..];
    assert buf[size..] == old(buf[size..]);
  }

  method CheckCrc(buf: array<Byte>, size: nat) returns (ok: bool)
    requires 2 <= size <= buf.Length
    ensures ok <==> CrcOk(buf[..size])
  {
    var crc := ComputeCrc16(buf, size - 2);
    var low := LowByte(crc);
    var high := HighByte(crc);
    assert buf[..size][..size - 2] == buf[..size - 2];
    assert Word(crc) == ByteBits(low) + ByteBits(high);
    ok := low == buf[size - 1] && high == buf[size - 2];
    if CrcOk(buf[..size]) {
      SplitStored(ByteBits(low), ByteBits(high), ByteBits(buf[size - 1]), ByteBits(buf[size - 2]));
      ByteBitsInjective(low, buf[size - 1]);
      ByteBitsInjective(high, buf[size - 2]);
    }
  }

  lemma SplitStored(a: seq<bool>, b: seq<bool>, c: seq<bool>, d: seq<bool>)
    requires |a| == |c| && a + b == c + d
    ensures a == c && b == d
  {
    assert (a + b)[..|a|] == a && (a + b)[|a|..] == b;
    assert (c + d)[..|c|] == c && (c + d)[|c|..] == d;
  }
}
