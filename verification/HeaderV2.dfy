/** The CRC-32 of section 8 of RFC 1952 (fota_header_info_v2.c, arm_uc_crc32). */
module Crc32 {
  import opened Crc

  function Bit(s: bv32): bv32 {
    if s & 1 == 1 then (s >> 1) ^ 0xEDB88320 else s >> 1
  }

  function Unbit(s: bv32): bv32 {
    if s & 0x80000000 == 0x80000000 then ((s ^ 0xEDB88320) << 1) | 1 else s << 1
  }

  lemma UnbitBit(s: bv32)
    ensures Unbit(Bit(s)) == s
  {}

  function Bits(s: bv32, n: nat): bv32
    decreases n
  {
    if n == 0 then s else Bit(Bits(s, n - 1))
  }

  lemma {:induction false} BitsOneToOne(s: bv32, t: bv32, n: nat)
    requires Bits(s, n) == Bits(t, n)
    ensures s == t
    decreases n
  {
    if n > 0 {
      UnbitBit(Bits(s, n - 1));
      UnbitBit(Bits(t, n - 1));
      BitsOneToOne(s, t, n - 1);
    }
  }

  function Step(s: bv32, c: bv8): bv32 {
    Bits(s ^ (c as bv32), 8)
  }

  function Checksum(data: seq<bv8>): bv32 {
    Run(Step, 0xFFFFFFFF, data) ^ 0xFFFFFFFF
  }

  /** The check value of CRC-32, that of the digits 1 to 9. */
  lemma CheckValue()
    ensures Checksum(DIGITS) == 0xcbf43926
  {
    hide Step, Run;
    StepValues();
    RunEmpty(Step, 0xffffffff);
    assert DIGITS[..0] == [] && DIGITS[..9] == DIGITS;
    RunNext(Step, 0xffffffff, DIGITS[..0], DIGITS[0], DIGITS[..1]);
    RunNext(Step, 0xffffffff, DIGITS[..1], DIGITS[1], DIGITS[..2]);
    RunNext(Step, 0xffffffff, DIGITS[..2], DIGITS[2], DIGITS[..3]);
    RunNext(Step, 0xffffffff, DIGITS[..3], DIGITS[3], DIGITS[..4]);
    RunNext(Step, 0xffffffff, DIGITS[..4], DIGITS[4], DIGITS[..5]);
    RunNext(Step, 0xffffffff, DIGITS[..5], DIGITS[5], DIGITS[..6]);
    RunNext(Step, 0xffffffff, DIGITS[..6], DIGITS[6], DIGITS[..7]);
    RunNext(Step, 0xffffffff, DIGITS[..7], DIGITS[7], DIGITS[..8]);
    RunNext(Step, 0xffffffff, DIGITS[..8], DIGITS[8], DIGITS[..9]);
  }

  lemma StepValues()
    ensures Step(0xffffffff, 0x31) == 0x7c231048 && Step(0x7c231048, 0x32) == 0xb0acbb32
    ensures Step(0xb0acbb32, 0x33) == 0x77b79c2d && Step(0x77b79c2d, 0x34) == 0x641c1f5c
    ensures Step(0x641c1f5c, 0x35) == 0x340ac5e3 && Step(0x340ac5e3, 0x36) == 0xf68d2c9e
    ensures Step(0xf68d2c9e, 0x37) == 0xaffc9660 && Step(0xaffc9660, 0x38) == 0x651f2550
    ensures Step(0x651f2550, 0x39) == 0x340bc6d9
  {}

  lemma StepOneToOne()
    ensures OneToOne(Step)
  {
    forall s: bv32, t: bv32, c: bv8 | Step(s, c) == Step(t, c)
      ensures s == t
    {
      BitsOneToOne(s ^ (c as bv32), t ^ (c as bv32), 8);
      assert s ^ (c as bv32) ^ (c as bv32) == s;
    }
    forall s: bv32, c: bv8, d: bv8 | Step(s, c) == Step(s, d)
      ensures c == d
    {
      BitsOneToOne(s ^ (c as bv32), s ^ (d as bv32), 8);
    }
  }

  method ChecksumOf(buffer: array<bv8>, length: nat) returns (crc: bv32)
    requires length <= buffer.Length
    ensures crc == Checksum(buffer[..length])
  {
    hide Step, Bit;
    crc := 0xFFFFFFFF;
    for i := 0 to length
      invariant crc == Run(Step, 0xFFFFFFFF, buffer[..i])
    {
      assert buffer[..i + 1][..i] == buffer[..i];
      crc := StepOf(crc, buffer[i]);
    }
    crc := crc ^ 0xFFFFFFFF;
  }

  method StepOf(before: bv32, c: bv8) returns (crc: bv32)
    ensures crc == Step(before, c)
  {
    crc := before ^ (c as bv32);
    for counter := 0 to 8
      invariant crc == Bits(before ^ (c as bv32), counter)
    {
      crc := if crc & 1 == 1 then (crc >> 1) ^ 0xEDB88320 else crc >> 1;
    }
  }

  lemma OneByteChanges(a: seq<bv8>, b: seq<bv8>, i: nat)
    requires |a| == |b| && i < |a| && a[i] != b[i] && forall j :: 0 <= j < |a| && j != i ==> a[j] == b[j]
    ensures Checksum(a) != Checksum(b)
  {
    hide Step;
    StepOneToOne();
    OneByteNoticed(Step, 0xFFFFFFFF, a, b, i);
    Twice(Run(Step, 0xFFFFFFFF, a));
    Twice(Run(Step, 0xFFFFFFFF, b));
  }

  lemma Twice(s: bv32)
    ensures s ^ 0xFFFFFFFF ^ 0xFFFFFFFF == s
  {}
}

/** Big-endian numbers (arm_uc_write_uint32 to arm_uc_parse_uint64). */
module BigEndian {

  function Write32(v: bv32): (r: seq<bv8>)
    ensures |r| == 4
  {
    [((v >> 24) & 0xff) as bv8, ((v >> 16) & 0xff) as bv8, ((v >> 8) & 0xff) as bv8, (v & 0xff) as bv8]
  }

  function Parse32(b: seq<bv8>): bv32
    requires |b| == 4
  {
    ((((((b[0] as bv32) << 8) | (b[1] as bv32)) << 8) | (b[2] as bv32)) << 8) | (b[3] as bv32)
  }

  lemma ParseWrite32(v: bv32)
    ensures Parse32(Write32(v)) == v
  {}

  lemma WriteParse32(b: seq<bv8>)
    requires |b| == 4
    ensures Write32(Parse32(b)) == b
  {}

  function Write64(v: bv64): (r: seq<bv8>)
    ensures |r| == 8
  {
    [((v >> 56) & 0xff) as bv8, ((v >> 48) & 0xff) as bv8, ((v >> 40) & 0xff) as bv8, ((v >> 32) & 0xff) as bv8,
     ((v >> 24) & 0xff) as bv8, ((v >> 16) & 0xff) as bv8, ((v >> 8) & 0xff) as bv8, (v & 0xff) as bv8]
  }

  function Parse64(b: seq<bv8>): bv64
    requires |b| == 8
  {
    var hi := ((((((b[0] as bv64) << 8) | (b[1] as bv64)) << 8) | (b[2] as bv64)) << 8) | (b[3] as bv64);
    ((((((((hi << 8) | (b[4] as bv64)) << 8) | (b[5] as bv64)) << 8) | (b[6] as bv64)) << 8) | (b[7] as bv64))
  }

  lemma ParseWrite64(v: bv64)
    ensures Parse64(Write64(v)) == v
  {}

  /** The most significant byte comes first. */
  lemma ByteOrder()
    ensures Write32(0x01020304) == [1, 2, 3, 4] && Write64(0x0102030405060708) == [1, 2, 3, 4, 5, 6, 7, 8]
  {}
}

/** The internal firmware header, version 2 (serialize_header_v2_internal and
    deserialize_header_v2_internal). */
module HeaderV2 {
  import opened BigEndian
  import opened Bytes
  import Crc32

  const MAGIC: bv32 := 0x5a51b3d4
  const VERSION: bv32 := 2
  const CRC_OFFSET: nat := 108
  const SIZE: nat := 112

  /** The fields the header carries; the digest has 32 bytes. */
  datatype HeaderInfo = HeaderInfo(version: bv64, size: bv64, digest: seq<bv8>)

  datatype Parsed = Ok(h: HeaderInfo) | BadMagic | BadCrc

  function Zeros(n: nat): (r: seq<bv8>)
    ensures |r| == n
  {
    seq(n, i => 0)
  }

  /** What the CRC covers: magic, header version, firmware version, size, hash, and
      reserved fields. */
  function Body(h: HeaderInfo): seq<bv8> {
    Write32(MAGIC) + Write32(VERSION) + Write64(h.version) + Write64(h.size) + h.digest + Zeros(52)
  }

  function Encode(h: HeaderInfo): seq<bv8> {
    Body(h) + Write32(Crc32.Checksum(Body(h)))
  }

  function Decode(b: seq<bv8>): Parsed
    requires |b| == SIZE
  {
    if Parse32(b[..4]) != MAGIC then BadMagic
    else if Parse32(b[CRC_OFFSET..]) != Crc32.Checksum(b[..CRC_OFFSET]) then BadCrc
    else Ok(HeaderInfo(Parse64(b[8..16]), Parse64(b[16..24]), b[24..56]))
  }

  lemma Fields(h: HeaderInfo)
    requires |h.digest| == 32
    ensures |Body(h)| == CRC_OFFSET && |Encode(h)| == SIZE
    ensures var b := Encode(h);
            && b[..4] == Write32(MAGIC) && b[4..8] == Write32(VERSION)
            && b[8..16] == Write64(h.version) && b[16..24] == Write64(h.size)
            && b[24..56] == h.digest && b[56..CRC_OFFSET] == Zeros(52) && b[..CRC_OFFSET] == Body(h)
            && b[CRC_OFFSET..] == Write32(Crc32.Checksum(Body(h)))
  {
    hide Write32, Write64, Zeros, Crc32.Checksum;
  }

  /** The bytes of a header, by their offsets. */
  lemma Layout(h: HeaderInfo)
    requires |h.digest| == 32
    ensures |Encode(h)| == 112
    ensures var b := Encode(h);
            && b[..8] == [0x5a, 0x51, 0xb3, 0xd4, 0, 0, 0, 2]
            && b[8..16] == Write64(h.version) && b[16..24] == Write64(h.size) && b[24..56] == h.digest
            && (forall i :: 56 <= i < 108 ==> b[i] == 0)
            && b[108..] == Write32(Crc32.Checksum(b[..108]))
  {
    hide Write32, Write64, Encode, Body, Crc32.Checksum, Zeros;
    Fields(h);
    MagicBytes();
    var b := Encode(h);
    assert b[..8] == b[..4] + b[4..8];
    forall i | 56 <= i < 108
      ensures b[i] == 0
    {
      ZerosAt(52, i - 56);
      assert b[i] == b[56..108][i - 56];
    }
  }

  lemma MagicBytes()
    ensures Write32(MAGIC) == [0x5a, 0x51, 0xb3, 0xd4] && Write32(VERSION) == [0, 0, 0, 2]
  {}

  lemma ZerosAt(n: nat, i: nat)
    requires i < n
    ensures Zeros(n)[i] == 0
  {}

  lemma RoundTrip(h: HeaderInfo)
    requires |h.digest| == 32
    ensures |Encode(h)| == SIZE && Decode(Encode(h)) == Ok(h)
  {
    hide Write32, Write64, Parse32, Parse64, Encode, Body, Crc32.Checksum;
    Fields(h);
    ParseWrite32(MAGIC);
    ParseWrite32(Crc32.Checksum(Body(h)));
    ParseWrite64(h.version);
    ParseWrite64(h.size);
  }

  /** A header with one changed byte is never accepted. */
  lemma ChangedByteRejected(h: HeaderInfo, i: nat, x: bv8)
    requires |h.digest| == 32 && |Encode(h)| == SIZE && i < SIZE && x != Encode(h)[i]
    ensures !Decode(Encode(h)[i := x]).Ok?
  {
    hide Write32, Write64, Parse32, Parse64, Encode, Body, Crc32.Checksum;
    Fields(h);
    var b := Encode(h)[i := x];
    var c := Crc32.Checksum(Body(h));
    ParseWrite32(c);
    if i < CRC_OFFSET {
      assert b[CRC_OFFSET..] == Encode(h)[CRC_OFFSET..];
      assert Body(h)[i] == Encode(h)[..CRC_OFFSET][i] == Encode(h)[i];
      forall j | 0 <= j < CRC_OFFSET && j != i
        ensures b[..CRC_OFFSET][j] == Body(h)[j]
      {
        assert Body(h)[j] == Encode(h)[..CRC_OFFSET][j];
      }
      Crc32.OneByteChanges(b[..CRC_OFFSET], Body(h), i);
    } else {
      assert b[..CRC_OFFSET] == Body(h);
      WriteParse32(b[CRC_OFFSET..]);
      assert b[CRC_OFFSET..][i - CRC_OFFSET] == x;
      assert Write32(c)[i - CRC_OFFSET] == Encode(h)[i];
    }
  }

  // ---- In place ---------------------------------------------------------------------

  /** A field behind what has been written, in front of the zeros. */
  lemma PutNext(p: seq<bv8>, n: nat, tail: seq<bv8>, d: seq<bv8>)
    requires |d| <= n
    ensures Splice(p + Zeros(n) + tail, |p|, d) == (p + d) + Zeros(n - |d|) + tail
  {}

  lemma PutZeros(p: seq<bv8>, tail: seq<bv8>)
    requires |p| == 56
    ensures Splice(p + Zeros(56) + tail, 88, Zeros(16)) == (p + Zeros(52)) + Zeros(4) + tail
  {}

  method StoreNext(buf: array<bv8>, d: seq<bv8>, ghost p: seq<bv8>, ghost n: nat, ghost tail: seq<bv8>, at: nat)
    requires at == |p| && |d| <= n && buf[..] == p + Zeros(n) + tail
    modifies buf
    ensures buf[..] == (p + d) + Zeros(n - |d|) + tail
  {
    hide Splice, Zeros;
    PutNext(p, n, tail, d);
    CopyInto(buf, at, d);
  }

  /** serialize_header_v2_internal: the fields at their offsets in a zeroed buffer,
      then the CRC of what is there. */
  method Serialize(h: HeaderInfo, buf: array<bv8>)
    requires |h.digest| == 32 && buf.Length >= SIZE
    modifies buf
    ensures buf[..] == Encode(h) + old(buf[SIZE..])
  {
    hide Write32, Write64, Crc32.Checksum, Zeros, Splice;
    ghost var tail := buf[SIZE..];
    ClearFirst(buf, tail);
    ghost var p := [];
    StoreNext(buf, Write32(MAGIC), p, 112, tail, 0);
    p := p + Write32(MAGIC);
    StoreNext(buf, Write32(VERSION), p, 108, tail, 4);
    p := p + Write32(VERSION);
    StoreNext(buf, Write64(h.version), p, 104, tail, 8);
    p := p + Write64(h.version);
    StoreNext(buf, Write64(h.size), p, 96, tail, 16);
    p := p + Write64(h.size);
    StoreNext(buf, h.digest, p, 88, tail, 24);
    p := p + h.digest;
    PutZeros(p, tail);
    CopyInto(buf, 88, Zeros(16));
    assert p + Zeros(52) == Body(h);
    assert buf[..CRC_OFFSET] == Body(h);
    var crc := Crc32.ChecksumOf(buf, CRC_OFFSET);
    StoreNext(buf, Write32(crc), Body(h), 4, tail, CRC_OFFSET);
    Zeros0();
  }

  lemma Zeros0()
    ensures Zeros(0) == []
  {}

  method ClearFirst(buf: array<bv8>, ghost tail: seq<bv8>)
    requires buf.Length >= SIZE && tail == buf[SIZE..]
    modifies buf
    ensures buf[..] == [] + Zeros(112) + tail
  {
    CopyInto(buf, 0, Zeros(SIZE));
  }

  /** deserialize_header_v2_internal */
  method Deserialize(buf: array<bv8>) returns (r: Parsed)
    requires buf.Length >= SIZE
    ensures r == Decode(buf[..SIZE])
  {
    hide Parse32, Parse64, Crc32.Checksum;
    ghost var b := buf[..SIZE];
    assert b[..4] == buf[..4];
    if Parse32(buf[..4]) != MAGIC {
      return BadMagic;
    }
    var crc := Crc32.ChecksumOf(buf, CRC_OFFSET);
    assert b[..CRC_OFFSET] == buf[..CRC_OFFSET] && b[CRC_OFFSET..] == buf[CRC_OFFSET..SIZE];
    if Parse32(buf[CRC_OFFSET..SIZE]) != crc {
      return BadCrc;
    }
    assert b[8..16] == buf[8..16] && b[16..24] == buf[16..24] && b[24..56] == buf[24..56];
    r := Ok(HeaderInfo(Parse64(buf[8..16]), Parse64(buf[16..24]), buf[24..56]));
  }
}
