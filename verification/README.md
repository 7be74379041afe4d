# PieRakNet frame codec, modelled in Dafny

This project models the frame codec of PieRakNet, a RakNet-style UDP game
transport: `Frame.decode` and `Frame.encode` in `pieraknet/packets/frame.py`.
A frame is the unit that carries reliability metadata inside a datagram:

- one `flags` byte: bits 7-5 are the reliability type, bit 4 is the
  fragmentation flag;
- an unsigned 16-bit `length_in_bits`;
- a 24-bit little-endian reliable frame index, present for reliability types
  2, 3, 4, 6 and 7;
- a 24-bit little-endian sequenced frame index, present for types 1 and 4;
- a 24-bit little-endian ordered frame index and a one-byte order channel,
  present for types 1, 3, 4 and 7;
- a fragment header (signed 32-bit compound size, signed 16-bit compound id,
  signed 32-bit index), present when the fragmentation flag is set;
- the body, `ceil(length_in_bits / 8)` bytes, always present.

Files:

- `wrappers.dfy` (module `Wrappers`): the `Option` type decoders return.
- `buffer.dfy` (module `Buffer`): the fixed-width primitives the codec calls on
  its buffer (`read_byte`, `read_unsigned_short`, `read_uint24le`,
  `read_short`, `read_int`, `read(n)` and the matching writers). Each reader
  takes bytes from the front of a byte sequence and returns the value and the
  remaining bytes, or `None` when too few bytes remain. Each has a round-trip
  lemma with its writer.
- `flags.dfy` (module `Flags`): the reliability type and fragmentation bit
  taken out of `flags`, the presence predicates, and the reliability-type
  table from the source's comment as an independent reference.
- `frame.dfy` (module `FrameCodec`): the `Frame` datatype, `Encode`,
  `DecodeOnto` and `Decode`, and the properties of the codec.

`Frame.decode` fills in `self`, so a field it does not read keeps whatever
value it had. `DecodeOnto(order, prior, s)` models this by reading into
`prior`. `Overlay(prior, f)` is the reference definition of that effect:
flags, length and body from the wire, each optional field from the wire when
the flags select it and from `prior` otherwise. `Decode(order, s)` reads into
a freshly constructed frame, where every field starts at 0 (a frame built
with a `server` object, see "Left out"). Decoding returns the frame and the
bytes after it, or `None` when the bytes run out.

The byte order of the 16- and 32-bit primitives is the parameter
`order: Endian`. The `Buffer` class is not part of this model, so the
source does not show this order. Every layout and round-trip lemma holds for
both byte orders. The 24-bit indices are little-endian by the primitive's name.
The example datagram in the comment at `frame.py:4` fixes the order: its
length field `00 90` gives 144 bits only when read big-endian.
`ExampleFrameDecodes` proves the frame decodes with big-endian fields.
`ExampleNeedsBigEndian` proves it does not decode with little-endian fields.
One `order` value covers `read_unsigned_short`/`write_unsigned_short`,
`read_short`/`write_short` and `read_int`/`write_int` together: the model
assumes the three primitives share one byte order.

When the code and its comments disagree, the model follows the code:

- The comment at `frame.py:21` says the body is present "only if not
  fragmented". The code reads and writes the body in every case (lines 83
  and 121), and the model does the same.

In the example, the reliable frame index is 0, from the bytes `00 00 00`
after the length, as the comment at `frame.py:11` also says. The `09` after
those bytes is the first body byte, not part of the index.

## Model

| member | source | states |
|---|---|---|
| `Flags.ReliabilityType` | pieraknet/packets/frame.py:51 | the reliability type derived from `flags` always lies in 0..7 |
| `Flags.FragmentBit` | pieraknet/packets/frame.py:52 | the fragmentation bit derived from `flags` is always 0 or 1 |
| `Flags.MakeFlags` | pieraknet/packets/frame.py:51-52 | building a flags byte from a reliability type, a fragmentation flag and reserved bits gives a byte from which decode and encode extract exactly those values again |
| `Flags.FlagsDecomposition` | pieraknet/packets/frame.py:51-52 | reliability type, fragment bit and the low four bits together determine the flags byte: nothing is lost by the extraction |
| `Flags.PresenceMatchesReliability` | pieraknet/packets/frame.py:25-33 | the index sets tested by the code match the reliability table in the file's comment: a reliable index exactly for the reliable types, a sequenced index exactly for the sequenced types, an ordered index exactly for the ordered types |
| `Flags.SequencedImpliesOrdered` | pieraknet/packets/frame.py:64-70 | every type that puts a sequenced index on the wire (1 and 4) also puts an ordered index and channel on it |
| `Flags.AckReceiptKeepsLayout` | pieraknet/packets/frame.py:25-33 | the ACK-receipt types 5, 6 and 7 carry exactly the indices of types 0, 2 and 3: the receipt does not change the frame layout |
| `Flags.ReliabilityOf` | pieraknet/packets/frame.py:25-33 | each code 0..7 names the reliability type of the table, and that type's code is the number again |
| `Buffer.ReadByte` | pieraknet/packets/frame.py:50 | `read_byte` fails exactly on an empty buffer; otherwise writing the byte it returned in front of the rest rebuilds the buffer |
| `Buffer.ReadByteOfWrite` | pieraknet/packets/frame.py:90 | `read_byte` returns the byte `write_byte` wrote and leaves the following bytes untouched |
| `Buffer.ReadUnsignedShort` | pieraknet/packets/frame.py:57 | `read_unsigned_short` fails exactly when fewer than two bytes remain; otherwise the value it returns, written back, is the two bytes it consumed |
| `Buffer.ReadUnsignedShortOfWrite` | pieraknet/packets/frame.py:93 | `read_unsigned_short` returns the value `write_unsigned_short` wrote, in either byte order, and leaves the following bytes untouched |
| `Buffer.ReadUint24Le` | pieraknet/packets/frame.py:61 | `read_uint24le` fails exactly when fewer than three bytes remain; otherwise its value, written back, is the three bytes it consumed |
| `Buffer.ReadUint24LeOfWrite` | pieraknet/packets/frame.py:100 | `read_uint24le` returns the value `write_uint24le` wrote and leaves the following bytes untouched |
| `Buffer.ReadShort` | pieraknet/packets/frame.py:77 | `read_short` fails exactly when fewer than two bytes remain; otherwise its signed value, written back, is the two bytes it consumed |
| `Buffer.ReadShortOfWrite` | pieraknet/packets/frame.py:115 | `read_short` returns the signed value `write_short` wrote and leaves the following bytes untouched |
| `Buffer.ReadInt` | pieraknet/packets/frame.py:75 | `read_int` fails exactly when fewer than four bytes remain; otherwise its signed value, written back, is the four bytes it consumed |
| `Buffer.ReadIntOfWrite` | pieraknet/packets/frame.py:114 | `read_int` returns the signed value `write_int` wrote and leaves the following bytes untouched |
| `Buffer.Read` | pieraknet/packets/frame.py:83 | `read(n)` fails exactly when fewer than `n` bytes remain; otherwise it splits the buffer into `n` bytes and the rest |
| `Buffer.ReadOfWrite` | pieraknet/packets/frame.py:121 | `read(len(b))` returns the bytes `b` that `write` wrote, followed by the untouched rest |
| `Buffer.LittleEndianValueOfBytes` | pieraknet/packets/frame.py:61 | a value below 256^n written as n little-endian bytes reads back as the same value |
| `Buffer.LittleEndianBytesOfValue` | pieraknet/packets/frame.py:100 | any n bytes read as a little-endian value and written back are the same bytes |
| `Buffer.SignedValue` | pieraknet/packets/frame.py:75-79 | every unsigned n-byte pattern denotes a signed value in the two's-complement range whose pattern is the same bytes |
| `Buffer.TwosComplement` | pieraknet/packets/frame.py:114-116 | a signed value in range is written as an n-byte pattern congruent to it modulo 256^n, with the high half for negative values |
| `Buffer.SignedValueOfTwosComplement` | pieraknet/packets/frame.py:75-79 | the signed value of the pattern `TwosComplement` writes is the value written: `SignedValue` inverts `TwosComplement` on the signed range |
| `FrameCodec.BodyLength` | pieraknet/packets/frame.py:82 | the body length is the ceiling of `length_in_bits / 8`: the fewest bytes that hold that many bits |
| `FrameCodec.BodyLengthOfBits` | pieraknet/packets/frame.py:82 | 1 bit and 8 bits take one body byte, 9 bits take two, 0 bits none, and 8·L bits take exactly L bytes |
| `FrameCodec.NewFrame` | pieraknet/packets/frame.py:38-47 | a fresh frame is unreliable and unfragmented, and its body matches its length; `DecodeIff` shows these zeros are what decode leaves in every absent field |
| `FrameCodec.DecodeOnto` | pieraknet/packets/frame.py:49-83 | a successful decode consumed exactly the header its flags select and a body of `ceil(length_in_bits / 8)` bytes, and kept every absent field of `prior`; the full contract is stated by `DecodeOntoOfEncode`, `DecodeOntoInverse` and `DecodeOntoSucceedsIff` |
| `FrameCodec.Decode` | pieraknet/packets/frame.py:36-83 | decoding into a fresh frame fails on fewer than three bytes; when it succeeds, the frame has zeros in its absent fields and a body matching its length; `DecodeOntoSucceedsIff` and `DecodeIff` state exactly when it succeeds |
| `FrameCodec.Encode` | pieraknet/packets/frame.py:90-121 | the encoding is exactly the header size the flags select plus the body's length, with no check of the body against `length_in_bits` |
| `FrameCodec.EncodeFieldOrder` | pieraknet/packets/frame.py:90-121 | encode writes flags, length, reliable index, sequenced index, ordered index, order channel, compound size, compound id, index and body in that order, each present field straight after the previous present one, the body last |
| `FrameCodec.HeaderSizeByReliability` | pieraknet/packets/frame.py:90-119 | the bytes before the body are 3, plus 3 for a reliable type, 3 for a sequenced type, 4 for an ordered type and 10 for a fragmented frame |
| `FrameCodec.UnreliableFrameSize` | pieraknet/packets/frame.py:90-121 | an unreliable unfragmented frame is exactly three header bytes and its body |
| `FrameCodec.DecodeFixed` | pieraknet/packets/frame.py:50-57 | reading flags and length fails exactly on fewer than three bytes, changes no other field, and the values read re-encode to the bytes consumed |
| `FrameCodec.DecodeReliable` | pieraknet/packets/frame.py:60-61 | the reliable index is read only for types 2, 3, 4, 6, 7; the read fails exactly when three bytes are needed and missing; nothing else changes |
| `FrameCodec.DecodeSequenced` | pieraknet/packets/frame.py:64-65 | the sequenced index is read only for types 1 and 4, with the same failure and no-other-change guarantees |
| `FrameCodec.DecodeOrdered` | pieraknet/packets/frame.py:68-70 | ordered index then order channel are read only for types 1, 3, 4, 7, with the same guarantees |
| `FrameCodec.DecodeFragment` | pieraknet/packets/frame.py:74-79 | compound size, compound id and index are read, in that order, only when the fragmentation bit is set, with the same guarantees |
| `FrameCodec.DecodeBody` | pieraknet/packets/frame.py:82-83 | the body read is exactly `ceil(length_in_bits / 8)` bytes, whatever the fragmentation bit, and fails rather than truncate |
| `FrameCodec.DecodeOntoOfEncode` | pieraknet/packets/frame.py:49-123 | decoding the encoding of a frame whose body matches its length, followed by any bytes, gives back flags, length, body and every present field, keeps every absent field as it was, and returns the following bytes unchanged |
| `FrameCodec.DecodeOntoInverse` | pieraknet/packets/frame.py:49-83 | a successful decode consumed exactly the encoding of the frame it returned; absent fields are as before; the body matches the length |
| `FrameCodec.DecodeOntoSucceedsIff` | pieraknet/packets/frame.py:49-83 | decode succeeds exactly when the buffer holds the whole frame its flags and length announce, and then leaves the cursor at the byte after the frame |
| `FrameCodec.DecodeIff` | pieraknet/packets/frame.py:36-83 | decoding into a fresh frame returns `(f, rest)` exactly when the buffer is `f`'s encoding followed by `rest`, `f` has zeros in its absent fields and its body matches its length |
| `FrameCodec.EncodeIgnoresAbsentFields` | pieraknet/packets/frame.py:99-119 | fields whose presence predicate is false are never written: changing them does not change the encoding |
| `FrameCodec.TruncatedFrameFails` | pieraknet/packets/frame.py:82-83 | every strict prefix of the encoding of a frame whose body matches its length fails to decode; a truncated body is never returned |
| `FrameCodec.LongBodySpillsOver` | pieraknet/packets/frame.py:82-83 | encode writes a body longer than `length_in_bits` announces verbatim; decoding reads only the announced bytes and leaves the surplus behind |
| `FrameCodec.ShortBodyFails` | pieraknet/packets/frame.py:121 | a body shorter than announced is still written, and then the encoding does not decode |
| `FrameCodec.DecodeFramesOfEncode` | pieraknet/packets/frame.py:49-123 | well-formed frames written back to back decode one after another, each starting where the previous one ended |
| `FrameCodec.EncodeFramesOfDecode` | pieraknet/packets/frame.py:49-123 | a buffer that decodes into a run of frames is exactly their encodings back to back |
| `FrameCodec.ExampleFrameEncodes` | pieraknet/packets/frame.py:4-11 | the example frame (flags 0x40, 144 bits, reliable index 0) encodes, with big-endian 16-bit fields, to the bytes after the example datagram's four header bytes |
| `FrameCodec.ExampleFrameDecodes` | pieraknet/packets/frame.py:4-11 | those bytes decode to a reliable, unfragmented frame with an 18-byte body and nothing left over |
| `FrameCodec.ExampleNeedsBigEndian` | pieraknet/packets/frame.py:10 | read little-endian, the example's length field announces 36864 bits and the frame does not decode |

## Left out

- Logging and the `server` object: the model assumes the frame was built
  with a `server` whose logger accepts the debug calls; then those calls
  only trace the codec and do not affect the bytes. With the default
  `server=None` (lines 36-37) neither direction succeeds: `decode` raises
  `AttributeError` at line 54 after `read_byte` has consumed the flags byte,
  and `encode` raises at line 91 after `write_byte` has written it. That
  failure is not modelled.
- The `Buffer` class is not part of this model. Its primitives are modelled
  as fixed-width readers and writers over byte sequences. Each reader is
  assumed to fail when fewer bytes remain than it needs, including `read(n)`.
  The byte order of its 16- and 32-bit primitives is the parameter `order`.
- `FrameCodec.Encode` is the bytes one call appends to the buffer.
  `getvalue()` at line 123 returns the whole buffer, including anything
  written before the call (a datagram header, earlier frames); the two are
  equal only for a fresh buffer.
- `FrameCodec.DecodeBody` and `FrameCodec.TruncatedFrameFails` rest on the
  assumption that `read(n)` fails on a short buffer. If the buffer behaves
  like `io.BytesIO` (its `getvalue()` suggests so), `read(n)` instead
  returns the shorter remainder, and a truncated frame would decode with a
  short body. The model does not promise that behaviour.
- The `isinstance` guard at lines 87-88 is replaced by the field types.
  `flags` is a byte, `length_in_bits` an unsigned 16-bit value, the indices
  24-bit, `compound_size` and `index` signed 32-bit, `compound_id` signed
  16-bit. A frame whose fields do not fit cannot be built, so the `TypeError`
  path has no counterpart.
- When a read fails partway, the Python `decode` has already assigned the
  earlier fields of `self`. The model returns `None` and does not model that
  partly updated frame.
- The datagram header (packet id 0x84 and the 24-bit sequence number) in the
  example comment is not read or written by the frame codec. It appears only
  as the first four bytes of `ExampleDatagram`.
- Reassembly of fragments, ordering channels and the reliability window are
  outside this file.
