/** cBuffer: a byte buffer with a read and a write index, big-endian numbers, and the packets the
    chat programs exchange through it. */
module ChatBuffer {
  import opened Wire

  const BUFFER_SIZE := 512
  /** sizeof the three 32-bit fields of the message structure. */
  const HEADER_FIELDS := 12
  /** What is written in front of the text: 4 bytes of packet size, 2 of type, 2 of length. */
  const HEADER_BYTES := 8

  function U16(value: nat): (s: Bytes)
    ensures |s| == 2
  {
    [value / 256 % 256, value % 256]
  }

  function U32(value: nat): (s: Bytes)
    ensures |s| == 4
  {
    [value / 0x100_0000 % 256, value / 0x1_0000 % 256, value / 256 % 256, value % 256]
  }

  function OfU16(s: Bytes): nat
    requires |s| == 2
  {
    s[0] as int * 256 + s[1] as int
  }

  function OfU32(s: Bytes): nat
    requires |s| == 4
  {
    s[0] as int * 0x100_0000 + s[1] as int * 0x1_0000 + s[2] as int * 256 + s[3] as int
  }

  lemma BigEndianReadBack(value: nat)
    ensures value < 0x1_0000 ==> OfU16(U16(value)) == value
    ensures value < 0x1_0000_0000 ==> OfU32(U32(value)) == value
  {
    var a, b, c := value / 256, value / 0x1_0000, value / 0x100_0000;
    assert value == 256 * a + value % 256;
    assert a / 256 == b && b / 256 == c;
    assert a == 256 * b + a % 256 && b == 256 * c + b % 256;
  }

  lemma {:induction false} MostSignificantFirst(a: byte, b: byte, c: byte, d: byte)
    ensures U16(a as int * 256 + b as int) == [a, b]
    ensures U32(((a as int * 256 + b as int) * 256 + c as int) * 256 + d as int) == [a, b, c, d]
  {
    var n := ((a as int * 256 + b as int) * 256 + c as int) * 256 + d as int;
    assert n / 256 == (a as int * 256 + b as int) * 256 + c as int;
    assert n / 256 / 256 == a as int * 256 + b as int && n / 256 / 256 / 256 == a as int;
    assert n / 0x1_0000 == n / 256 / 256 && n / 0x100_0000 == n / 256 / 256 / 256;
  }

  /** d with the bytes of s put in at i. */
  function Overwritten(d: Bytes, i: nat, s: Bytes): (r: Bytes)
    requires i + |s| <= |d|
    ensures |r| == |d|
  {
    d[..i] + s + d[i + |s|..]
  }

  lemma OverwrittenTwice(d: Bytes, i: nat, s: Bytes, t: Bytes)
    requires i + |s| + |t| <= |d|
    ensures Overwritten(Overwritten(d, i, s), i + |s|, t) == Overwritten(d, i, s + t)
  {
    var e := Overwritten(d, i, s);
    assert e[..i + |s|] == d[..i] + s;
    assert e[i + |s| + |t|..] == d[i + |s| + |t|..];
  }

  /** A packet: its size as the sender states it, type 1, and the text with its length. */
  function Frame(text: Bytes): (s: Bytes)
    ensures |s| == |text| + HEADER_BYTES
  {
    U32(|text| + HEADER_FIELDS) + U16(1) + U16(|text|) + text
  }

  /** The stated size counts four bytes more than are written. */
  lemma {:induction false} FrameParts(text: Bytes)
    requires |text| + HEADER_FIELDS < 0x1_0000_0000
    ensures OfU32(Frame(text)[..4]) == |Frame(text)| + 4
    ensures OfU16(Frame(text)[4..6]) == 1
    ensures |text| < 0x1_0000 ==> OfU16(Frame(text)[6..8]) == |text|
    ensures Frame(text)[8..] == text
  {
    BigEndianReadBack(|text| + HEADER_FIELDS);
    BigEndianReadBack(1);
    BigEndianReadBack(|text|);
    hide U16, U32, OfU16, OfU32;
    var head := U32(|text| + HEADER_FIELDS);
    assert Frame(text)[..4] == head && Frame(text)[4..6] == U16(1) && Frame(text)[6..8] == U16(|text|);
  }

  class Buffer {
    var data: Bytes
    var writeIndex: nat
    var readIndex: nat

    constructor (size: nat)
      ensures |data| == size && writeIndex == 0 && readIndex == 0
    {
      data, writeIndex, readIndex := seq(size, _ => 0), 0, 0;
    }

    method ReadUInt16BE() returns (value: nat)
      requires readIndex + 2 <= |data|
      modifies this`readIndex
      ensures value == OfU16(data[old(readIndex)..old(readIndex) + 2]) && readIndex == old(readIndex) + 2
    {
      value := data[readIndex] as int * 256;
      readIndex := readIndex + 1;
      value := value + data[readIndex];
      readIndex := readIndex + 1;
    }

    method ReadUInt32BE() returns (value: nat)
      requires readIndex + 4 <= |data|
      modifies this`readIndex
      ensures value == OfU32(data[old(readIndex)..old(readIndex) + 4]) && readIndex == old(readIndex) + 4
    {
      value := data[readIndex] as int * 0x100_0000;
      readIndex := readIndex + 1;
      value := value + data[readIndex] as int * 0x1_0000;
      readIndex := readIndex + 1;
      value := value + data[readIndex] as int * 256;
      readIndex := readIndex + 1;
      value := value + data[readIndex];
      readIndex := readIndex + 1;
    }

    method ReadString(length: nat) returns (str: Bytes)
      requires readIndex + length <= |data|
      modifies this`readIndex
      ensures str == data[old(readIndex)..old(readIndex) + length] && readIndex == old(readIndex) + length
    {
      str := [];
      for i := 0 to length
        invariant readIndex == old(readIndex) + i && str == data[old(readIndex)..readIndex]
      {
        str := str + [data[readIndex]];
        readIndex := readIndex + 1;
      }
    }

    method WriteUInt16BE(value: nat)
      requires writeIndex + 2 <= |data|
      modifies this`data, this`writeIndex
      ensures data == Overwritten(old(data), old(writeIndex), U16(value)) && writeIndex == old(writeIndex) + 2
    {
      data := data[writeIndex := value / 256 % 256];
      writeIndex := writeIndex + 1;
      data := data[writeIndex := value % 256];
      writeIndex := writeIndex + 1;
    }

    method WriteUInt32BE(value: nat)
      requires writeIndex + 4 <= |data|
      modifies this`data, this`writeIndex
      ensures data == Overwritten(old(data), old(writeIndex), U32(value)) && writeIndex == old(writeIndex) + 4
    {
      data := data[writeIndex := value / 0x100_0000 % 256];
      writeIndex := writeIndex + 1;
      data := data[writeIndex := value / 0x1_0000 % 256];
      writeIndex := writeIndex + 1;
      data := data[writeIndex := value / 256 % 256];
      writeIndex := writeIndex + 1;
      data := data[writeIndex := value % 256];
      writeIndex := writeIndex + 1;
    }

    method WriteString(str: Bytes)
      requires writeIndex + |str| <= |data|
      modifies this`data, this`writeIndex
      ensures data == Overwritten(old(data), old(writeIndex), str) && writeIndex == old(writeIndex) + |str|
    {
      for i := 0 to |str|
        invariant writeIndex == old(writeIndex) + i && |data| == |old(data)|
        invariant data == Overwritten(old(data), old(writeIndex), str[..i])
      {
        data := data[writeIndex := str[i]];
        writeIndex := writeIndex + 1;
        assert str[..i + 1] == str[..i] + [str[i]];
      }
      assert str[..|str|] == str;
    }

    method ReinitializeIndex()
      modifies this`writeIndex, this`readIndex
      ensures writeIndex == 0 && readIndex == 0
    {
      writeIndex, readIndex := 0, 0;
    }

    method ClearBuffer()
      modifies this
      ensures writeIndex == 0 && readIndex == 0
      ensures |data| == BUFFER_SIZE && forall i :: 0 <= i < BUFFER_SIZE ==> data[i] == 0
    {
      ReinitializeIndex();
      data := seq(BUFFER_SIZE, _ => 0);
    }

    /** vector::resize to a size that is not smaller. */
    method Grow(size: nat)
      requires size >= |data|
      modifies this`data
      ensures |data| == size && data[..|old(data)|] == old(data)
    {
      data := data + seq(size - |data|, _ => 0);
    }

    /** recv: a packet arrives at the front of the buffer, whatever the indices are. */
    method Receive(packet: Bytes)
      requires |packet| <= |data|
      modifies this`data
      ensures data == Overwritten(old(data), 0, packet)
    {
      data := packet + data[|packet|..];
      assert data == Overwritten(old(data), 0, packet);
    }

    /** SendMessageToBuffer. Returns the packet size it states. */
    method WriteMessage(text: Bytes) returns (packetSize: nat)
      requires writeIndex + |text| + HEADER_BYTES <= |data|
      modifies this`data, this`writeIndex
      ensures packetSize == |text| + HEADER_FIELDS
      ensures data == Overwritten(old(data), old(writeIndex), Frame(text))
      ensures writeIndex == old(writeIndex) + |Frame(text)|
    {
      ghost var d, i := data, writeIndex;
      packetSize := |text| + HEADER_FIELDS;
      hide U16, U32, Overwritten;
      WriteUInt32BE(packetSize);
      WriteUInt16BE(1);
      OverwrittenTwice(d, i, U32(packetSize), U16(1));
      WriteUInt16BE(|text|);
      OverwrittenTwice(d, i, U32(packetSize) + U16(1), U16(|text|));
      WriteString(text);
      OverwrittenTwice(d, i, U32(packetSize) + U16(1) + U16(|text|), text);
    }

    /** The reads of the receiving side, on a buffer that starts with a packet. */
    method ReadMessage(ghost text: Bytes) returns (packetSize: nat, messageType: nat, msg: Bytes)
      requires readIndex == 0 && |text| < 0x1_0000 && |Frame(text)| <= |data| && data[..|Frame(text)|] == Frame(text)
      modifies this`readIndex
      ensures packetSize == |text| + HEADER_FIELDS && messageType == 1 && msg == text
    {
      FrameParts(text);
      PrefixParts(data, Frame(text));
      packetSize := ReadUInt32BE();
      messageType := ReadUInt16BE();
      var length := ReadUInt16BE();
      hide OfU16, OfU32, Frame;
      msg := ReadString(length);
    }
  }

  lemma FrameSize(text: Bytes)
    ensures |Frame(text)| == HEADER_BYTES + |text|
  {
  }

  lemma PrefixParts(d: Bytes, s: Bytes)
    requires HEADER_BYTES <= |s| <= |d| && d[..|s|] == s
    ensures d[0..4] == s[..4] && d[4..6] == s[4..6] && d[6..8] == s[6..8] && d[8..|s|] == s[8..]
  {
    assert forall i :: 0 <= i < |s| ==> d[i] == d[..|s|][i];
  }
}
