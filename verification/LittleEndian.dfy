/** Fixed-width little-endian integers, as written to streams and read back from buffers. */
module LittleEndian {
  import opened Bytes

  const U16 := 0x1_0000
  const U32 := 0x1_0000_0000
  const U64 := 0x1_0000_0000_0000_0000

  /** writeLEuint16: the value is taken modulo its width, each byte modulo 256. */
  function Write16(value: int): (r: Bytes)
    ensures |r| == 2
  {
    [value % 256, (value / 256) % 256]
  }

  function Write32(value: int): (r: Bytes)
    ensures |r| == 4
  {
    [value % 256, (value / 256) % 256, (value / 0x1_0000) % 256, (value / 0x100_0000) % 256]
  }

  function Write64(value: int): (r: Bytes)
    ensures |r| == 8
  {
    Write32(value) + Write32(value / U32)
  }

  function Read16(b: Bytes, at: nat): (r: nat)
    requires at + 2 <= |b|
    ensures r < U16
  {
    b[at] as int + b[at + 1] as int * 256
  }

  function Read32(b: Bytes, at: nat): (r: nat)
    requires at + 4 <= |b|
    ensures r < U32
  {
    b[at] as int + b[at + 1] as int * 256 + b[at + 2] as int * 0x1_0000 + b[at + 3] as int * 0x100_0000
  }

  function Read64(b: Bytes, at: nat): (r: nat)
    requires at + 8 <= |b|
    ensures r < U64
  {
    Read32(b, at) + Read32(b, at + 4) * U32
  }

  lemma RoundTrip16(value: int, b: Bytes, at: nat)
    requires at + 2 <= |b| && b[at..at + 2] == Write16(value)
    ensures Read16(b, at) == value % U16
  {
    var w := b[at..at + 2];
    assert b[at] == w[0] && b[at + 1] == w[1];
  }

  lemma FourDigits(v: int)
    ensures v % U32 ==
            v % 256 + (v / 256) % 256 * 256 + (v / 0x1_0000) % 256 * 0x1_0000 + (v / 0x100_0000) % 256 * 0x100_0000
  {
    var v1 := v / 256;
    var v2 := v1 / 256;
    var v3 := v2 / 256;
    assert v2 == v / 0x1_0000;
    assert v3 == v / 0x100_0000;
    assert v == v3 / 256 * U32 + (v % 256 + v1 % 256 * 256 + v2 % 256 * 0x1_0000 + v3 % 256 * 0x100_0000);
  }

  lemma RoundTrip32(value: int, b: Bytes, at: nat)
    requires at + 4 <= |b| && b[at..at + 4] == Write32(value)
    ensures Read32(b, at) == value % U32
  {
    var w := b[at..at + 4];
    assert b[at] == w[0] && b[at + 1] == w[1] && b[at + 2] == w[2] && b[at + 3] == w[3];
    FourDigits(value);
  }

  lemma RoundTrip64(value: int, b: Bytes, at: nat)
    requires at + 8 <= |b| && b[at..at + 8] == Write64(value)
    ensures Read64(b, at) == value % U64
  {
    hide Write32, Read32;
    var w := b[at..at + 8];
    assert b[at..at + 4] == w[..4] == Write32(value);
    assert b[at + 4..at + 8] == w[4..] == Write32(value / U32);
    RoundTrip32(value, b, at);
    RoundTrip32(value / U32, b, at + 4);
  }

  /** The lowest byte comes first. */
  lemma LowestFirst(value: int)
    ensures var w := Write16(value); w[0] as int + w[1] as int * 256 == value % U16
    ensures var w := Write32(value);
            w[0] as int + w[1] as int * 256 + w[2] as int * 0x1_0000 + w[3] as int * 0x100_0000 == value % U32
    ensures var w := Write64(value); w[..4] == Write32(value) && w[4..] == Write32(value / U32)
  {
    TwoBytes(value);
    FourBytes(value);
    EightBytes(value);
    hide *;
  }

  lemma TwoBytes(value: int)
    ensures var w := Write16(value); w[0] as int + w[1] as int * 256 == value % U16
  {
  }

  lemma FourBytes(value: int)
    ensures var w := Write32(value);
            w[0] as int + w[1] as int * 256 + w[2] as int * 0x1_0000 + w[3] as int * 0x100_0000 == value % U32
  {
    FourDigits(value);
  }

  lemma EightBytes(value: int)
    ensures var w := Write64(value); w[..4] == Write32(value) && w[4..] == Write32(value / U32)
  {
    hide Write32;
  }
}
