/** The fixed-width primitives of the byte buffer the frame codec reads from
    and writes to. The buffer is a plain byte sequence: a reader takes the
    bytes it needs from the front and returns them decoded together with the
    bytes it left; a writer returns the bytes it appends. A reader fails
    (`None`) when fewer bytes remain than its width. */
module Buffer {
  import opened Wrappers

  type byte = b: int | 0 <= b < 0x100
  type uint16 = x: int | 0 <= x < 0x1_0000
  type uint24 = x: int | 0 <= x < 0x100_0000
  type int16 = x: int | -0x8000 <= x < 0x8000
  type int32 = x: int | -0x8000_0000 <= x < 0x8000_0000

  /** Byte order of a multi-byte primitive. */
  datatype Endian = LittleEndian | BigEndian

  function Pow256(n: nat): (r: nat)
    ensures r > 0
  {
    if n == 0 then 1 else 256 * Pow256(n - 1)
  }

  /* ---------------------------------------------------------------------- */
  /* Unsigned integers                                                      */
  /* ---------------------------------------------------------------------- */

  /** The unsigned value of `s`, least significant byte first. */
  function LittleEndianValue(s: seq<byte>): (v: nat)
    ensures v < Pow256(|s|)
  {
    if |s| == 0 then 0 else s[0] + 256 * LittleEndianValue(s[1..])
  }

  /** The `n` bytes of `v`, least significant byte first. */
  function LittleEndianBytes(v: nat, n: nat): (s: seq<byte>)
    requires v < Pow256(n)
    ensures |s| == n
  {
    if n == 0 then [] else [v % 256] + LittleEndianBytes(v / 256, n - 1)
  }

  lemma {:induction false} LittleEndianValueOfBytes(v: nat, n: nat)
    requires v < Pow256(n)
    ensures LittleEndianValue(LittleEndianBytes(v, n)) == v
  {
    if n > 0 {
      var s := LittleEndianBytes(v, n);
      assert s[1..] == LittleEndianBytes(v / 256, n - 1);
      LittleEndianValueOfBytes(v / 256, n - 1);
    }
  }

  lemma {:induction false} LittleEndianBytesOfValue(s: seq<byte>)
    ensures LittleEndianBytes(LittleEndianValue(s), |s|) == s
  {
    if |s| > 0 {
      var t := LittleEndianValue(s[1..]);
      var v := s[0] + 256 * t;
      assert v % 256 == s[0] && v / 256 == t;
      LittleEndianBytesOfValue(s[1..]);
    }
  }

  function Reverse(s: seq<byte>): (r: seq<byte>)
    ensures |r| == |s|
  {
    seq(|s|, i requires 0 <= i < |s| => s[|s| - 1 - i])
  }

  lemma ReverseReverse(s: seq<byte>)
    ensures Reverse(Reverse(s)) == s
  {
  }

  /** The `n` bytes of the unsigned value `v` in byte order `e`. */
  function UnsignedBytes(e: Endian, v: nat, n: nat): (s: seq<byte>)
    requires v < Pow256(n)
    ensures |s| == n
  {
    match e
    case LittleEndian => LittleEndianBytes(v, n)
    case BigEndian => Reverse(LittleEndianBytes(v, n))
  }

  /** The unsigned value the bytes `s` denote in byte order `e`. */
  function UnsignedValue(e: Endian, s: seq<byte>): (v: nat)
    ensures v < Pow256(|s|)
  {
    match e
    case LittleEndian => LittleEndianValue(s)
    case BigEndian => LittleEndianValue(Reverse(s))
  }

  lemma UnsignedValueOfBytes(e: Endian, v: nat, n: nat)
    requires v < Pow256(n)
    ensures UnsignedValue(e, UnsignedBytes(e, v, n)) == v
  {
    LittleEndianValueOfBytes(v, n);
    ReverseReverse(LittleEndianBytes(v, n));
  }

  lemma UnsignedBytesOfValue(e: Endian, s: seq<byte>)
    ensures UnsignedBytes(e, UnsignedValue(e, s), |s|) == s
  {
    match e
    case LittleEndian =>
      LittleEndianBytesOfValue(s);
    case BigEndian =>
      LittleEndianBytesOfValue(Reverse(s));
      ReverseReverse(s);
  }

  /* ---------------------------------------------------------------------- */
  /* Signed integers (two's complement)                                     */
  /* ---------------------------------------------------------------------- */

  /** Half the range of an `n`-byte integer: the signed range is [-Half(n), Half(n)). */
  function Half(n: nat): (h: int)
    requires 0 < n
    ensures 2 * h == Pow256(n)
  {
    Pow256(n) / 2
  }

  /** The unsigned `n`-byte pattern that stands for the signed value `v`. */
  function TwosComplement(v: int, n: nat): (u: nat)
    requires 0 < n && -Half(n) <= v < Half(n)
    ensures u < Pow256(n)
    ensures u == v || u == v + Pow256(n)
    ensures v < 0 <==> Half(n) <= u
  {
    if v < 0 then v + Pow256(n) else v
  }

  /** The signed value that the unsigned `n`-byte pattern `u` stands for. */
  function SignedValue(u: nat, n: nat): (v: int)
    requires 0 < n && u < Pow256(n)
    ensures -Half(n) <= v < Half(n)
    ensures TwosComplement(v, n) == u
  {
    if u < Half(n) then u else u - Pow256(n)
  }

  /** Reading back a written signed value gives the value again. */
  lemma SignedValueOfTwosComplement(v: int, n: nat)
    requires 0 < n && -Half(n) <= v < Half(n)
    ensures SignedValue(TwosComplement(v, n), n) == v
  {
  }

  /* ---------------------------------------------------------------------- */
  /* Readers and writers                                                    */
  /* ---------------------------------------------------------------------- */

  /** `read(n)`: the next `n` raw bytes. */
  function Read(s: seq<byte>, n: nat): (r: Option<(seq<byte>, seq<byte>)>)
    ensures r.Some? <==> n <= |s|
    ensures r.Some? ==> |r.value.0| == n && r.value.0 + r.value.1 == s
  {
    if n <= |s| then Some((s[..n], s[n..])) else None
  }

  /** `write(bytes)`: the bytes, verbatim. */
  function Write(bytes: seq<byte>): seq<byte>
  {
    bytes
  }

  lemma ReadOfWrite(bytes: seq<byte>, rest: seq<byte>)
    ensures Read(Write(bytes) + rest, |bytes|) == Some((bytes, rest))
  {
    assert (bytes + rest)[..|bytes|] == bytes;
    assert (bytes + rest)[|bytes|..] == rest;
  }

  /** An unsigned `n`-byte integer in byte order `e`. */
  function ReadUnsigned(e: Endian, s: seq<byte>, n: nat): (r: Option<(nat, seq<byte>)>)
    ensures r.Some? <==> n <= |s|
    ensures r.Some? ==> r.value.0 < Pow256(n) && UnsignedBytes(e, r.value.0, n) + r.value.1 == s
  {
    if n <= |s| then
      UnsignedBytesOfValue(e, s[..n]);
      Some((UnsignedValue(e, s[..n]), s[n..]))
    else
      None
  }

  lemma ReadUnsignedOfBytes(e: Endian, v: nat, n: nat, rest: seq<byte>)
    requires v < Pow256(n)
    ensures ReadUnsigned(e, UnsignedBytes(e, v, n) + rest, n) == Some((v, rest))
  {
    var s := UnsignedBytes(e, v, n) + rest;
    assert s[..n] == UnsignedBytes(e, v, n);
    assert s[n..] == rest;
    UnsignedValueOfBytes(e, v, n);
  }

  /** A signed two's-complement `n`-byte integer in byte order `e`. */
  function ReadSigned(e: Endian, s: seq<byte>, n: nat): (r: Option<(int, seq<byte>)>)
    requires 0 < n
    ensures r.Some? <==> n <= |s|
    ensures r.Some? ==> -Half(n) <= r.value.0 < Half(n)
    ensures r.Some? ==> UnsignedBytes(e, TwosComplement(r.value.0, n), n) + r.value.1 == s
  {
    var (u, rest) :- ReadUnsigned(e, s, n);
    Some((SignedValue(u, n), rest))
  }

  lemma ReadSignedOfBytes(e: Endian, v: int, n: nat, rest: seq<byte>)
    requires 0 < n && -Half(n) <= v < Half(n)
    ensures ReadSigned(e, UnsignedBytes(e, TwosComplement(v, n), n) + rest, n) == Some((v, rest))
  {
    ReadUnsignedOfBytes(e, TwosComplement(v, n), n, rest);
    SignedValueOfTwosComplement(v, n);
  }

  /* ---------------------------------------------------------------------- */
  /* The buffer's named primitives                                          */
  /* ---------------------------------------------------------------------- */

  /** `write_byte` */
  function WriteByte(b: byte): (s: seq<byte>)
    ensures |s| == 1
  {
    [b]
  }

  /** `read_byte`: one unsigned byte. */
  function ReadByte(s: seq<byte>): (r: Option<(byte, seq<byte>)>)
    ensures r.Some? <==> 1 <= |s|
    ensures r.Some? ==> WriteByte(r.value.0) + r.value.1 == s
  {
    if 1 <= |s| then Some((s[0], s[1..])) else None
  }

  lemma ReadByteOfWrite(b: byte, rest: seq<byte>)
    ensures ReadByte(WriteByte(b) + rest) == Some((b, rest))
  {
    assert (WriteByte(b) + rest)[1..] == rest;
  }

  /** `write_unsigned_short`: two bytes in the buffer's byte order `e`. */
  function WriteUnsignedShort(e: Endian, v: uint16): (s: seq<byte>)
    ensures |s| == 2
  {
    UnsignedBytes(e, v, 2)
  }

  /** `read_unsigned_short` */
  function ReadUnsignedShort(e: Endian, s: seq<byte>): (r: Option<(uint16, seq<byte>)>)
    ensures r.Some? <==> 2 <= |s|
    ensures r.Some? ==> WriteUnsignedShort(e, r.value.0) + r.value.1 == s
  {
    var (v, rest) :- ReadUnsigned(e, s, 2);
    Some((v, rest))
  }

  lemma ReadUnsignedShortOfWrite(e: Endian, v: uint16, rest: seq<byte>)
    ensures ReadUnsignedShort(e, WriteUnsignedShort(e, v) + rest) == Some((v, rest))
  {
    ReadUnsignedOfBytes(e, v, 2, rest);
  }

  /** `write_uint24le`: three bytes, least significant first. */
  function WriteUint24Le(v: uint24): (s: seq<byte>)
    ensures |s| == 3
  {
    UnsignedBytes(LittleEndian, v, 3)
  }

  /** `read_uint24le` */
  function ReadUint24Le(s: seq<byte>): (r: Option<(uint24, seq<byte>)>)
    ensures r.Some? <==> 3 <= |s|
    ensures r.Some? ==> WriteUint24Le(r.value.0) + r.value.1 == s
  {
    var (v, rest) :- ReadUnsigned(LittleEndian, s, 3);
    Some((v, rest))
  }

  lemma ReadUint24LeOfWrite(v: uint24, rest: seq<byte>)
    ensures ReadUint24Le(WriteUint24Le(v) + rest) == Some((v, rest))
  {
    ReadUnsignedOfBytes(LittleEndian, v, 3, rest);
  }

  /** `write_short`: a signed 16-bit integer in byte order `e`. */
  function WriteShort(e: Endian, v: int16): (s: seq<byte>)
    ensures |s| == 2
  {
    UnsignedBytes(e, TwosComplement(v, 2), 2)
  }

  /** `read_short` */
  function ReadShort(e: Endian, s: seq<byte>): (r: Option<(int16, seq<byte>)>)
    ensures r.Some? <==> 2 <= |s|
    ensures r.Some? ==> WriteShort(e, r.value.0) + r.value.1 == s
  {
    var (v, rest) :- ReadSigned(e, s, 2);
    Some((v, rest))
  }

  lemma ReadShortOfWrite(e: Endian, v: int16, rest: seq<byte>)
    ensures ReadShort(e, WriteShort(e, v) + rest) == Some((v, rest))
  {
    ReadSignedOfBytes(e, v, 2, rest);
  }

  /** `write_int`: a signed 32-bit integer in byte order `e`. */
  function WriteInt(e: Endian, v: int32): (s: seq<byte>)
    ensures |s| == 4
  {
    UnsignedBytes(e, TwosComplement(v, 4), 4)
  }

  /** `read_int` */
  function ReadInt(e: Endian, s: seq<byte>): (r: Option<(int32, seq<byte>)>)
    ensures r.Some? <==> 4 <= |s|
    ensures r.Some? ==> WriteInt(e, r.value.0) + r.value.1 == s
  {
    var (v, rest) :- ReadSigned(e, s, 4);
    Some((v, rest))
  }

  lemma ReadIntOfWrite(e: Endian, v: int32, rest: seq<byte>)
    ensures ReadInt(e, WriteInt(e, v) + rest) == Some((v, rest))
  {
    ReadSignedOfBytes(e, v, 4, rest);
  }
}
