/** The frame codec: one frame is the flags byte, the length of the body in
    bits, the optional reliability and fragmentation header fields the flags
    select, and the body. `Encode` writes a frame; `DecodeOnto` reads one into
    an existing frame value, the way the codec fills in `self`, leaving every
    field it does not read as it was.

    The byte order of the 16- and 32-bit primitives is the parameter `order`;
    the 24-bit indices are always little-endian. */
module FrameCodec {
  import opened Wrappers
  import opened Buffer
  import opened Flags

  datatype Frame = Frame(
    flags: byte,
    lengthInBits: uint16,
    reliableFrameIndex: uint24,
    sequencedFrameIndex: uint24,
    orderedFrameIndex: uint24,
    orderChannel: byte,
    compoundSize: int32,
    compoundId: int16,
    index: int32,
    body: seq<byte>)

  /** A freshly constructed frame: every field zero, the body empty. It is an
      unreliable, unfragmented frame whose empty body matches its length. */
  function NewFrame(): (f: Frame)
    ensures ReliabilityType(f.flags) == 0 && !IsFragmented(f.flags)
    ensures BodyMatchesLength(f)
  {
    Frame(0, 0, 0, 0, 0, 0, 0, 0, 0, [])
  }

  /** Number of body bytes that `lengthInBits` bits occupy: the ceiling of a
      division by eight. */
  function BodyLength(lengthInBits: nat): (n: nat)
    ensures lengthInBits <= 8 * n < lengthInBits + 8
  {
    (lengthInBits + 7) / 8
  }

  /** The body has exactly as many bytes as the length field announces. The
      encoder does not check this; the round trip depends on it. */
  predicate BodyMatchesLength(f: Frame)
  {
    |f.body| == BodyLength(f.lengthInBits)
  }

  /* ---------------------------------------------------------------------- */
  /* Layout                                                                 */
  /* ---------------------------------------------------------------------- */

  function ReliableWidth(flags: byte): nat
  {
    if HasReliableIndex(ReliabilityType(flags)) then 3 else 0
  }

  function SequencedWidth(flags: byte): nat
  {
    if HasSequencedIndex(ReliabilityType(flags)) then 3 else 0
  }

  /** The ordered index and the order channel. */
  function OrderedWidth(flags: byte): nat
  {
    if HasOrderedIndex(ReliabilityType(flags)) then 4 else 0
  }

  /** The compound size, compound id and index. */
  function FragmentWidth(flags: byte): nat
  {
    if IsFragmented(flags) then 10 else 0
  }

  /** Bytes before the body: flags and length, then the optional fields. */
  function HeaderSize(flags: byte): nat
  {
    3 + ReliableWidth(flags) + SequencedWidth(flags) + OrderedWidth(flags) + FragmentWidth(flags)
  }

  /** The frame as the codec leaves `prior` after reading `f`'s bytes into
      it: flags, length and body always come from `f`; an optional field
      comes from `f` when the flags put it on the wire and stays as in
      `prior` otherwise. */
  function Overlay(prior: Frame, f: Frame): (g: Frame)
    ensures g.flags == f.flags && g.lengthInBits == f.lengthInBits && g.body == f.body
  {
    var rt := ReliabilityType(f.flags);
    var frag := IsFragmented(f.flags);
    Frame(
      f.flags,
      f.lengthInBits,
      if HasReliableIndex(rt) then f.reliableFrameIndex else prior.reliableFrameIndex,
      if HasSequencedIndex(rt) then f.sequencedFrameIndex else prior.sequencedFrameIndex,
      if HasOrderedIndex(rt) then f.orderedFrameIndex else prior.orderedFrameIndex,
      if HasOrderedIndex(rt) then f.orderChannel else prior.orderChannel,
      if frag then f.compoundSize else prior.compoundSize,
      if frag then f.compoundId else prior.compoundId,
      if frag then f.index else prior.index,
      f.body)
  }

  /** Every field the flags leave off the wire holds its initial zero. */
  predicate Normalized(f: Frame)
  {
    Overlay(NewFrame(), f) == f
  }

  /** A frame as decoding into a fresh frame returns it: zeros in the absent
      fields and a body that matches its length. */
  predicate WellFormed(f: Frame)
  {
    Normalized(f) && BodyMatchesLength(f)
  }

  /* ---------------------------------------------------------------------- */
  /* Segments: one encoder and one decoder per step of the layout           */
  /* ---------------------------------------------------------------------- */

  function EncodeFixed(order: Endian, f: Frame): (s: seq<byte>)
    ensures |s| == 3
  {
    WriteByte(f.flags) + WriteUnsignedShort(order, f.lengthInBits)
  }

  /** Reads flags and length into `f`. */
  function DecodeFixed(order: Endian, f: Frame, s: seq<byte>): (r: Option<(Frame, seq<byte>)>)
    ensures r.Some? <==> 3 <= |s|
    ensures r.Some? ==> r.value.0 == f.(flags := r.value.0.flags, lengthInBits := r.value.0.lengthInBits)
    ensures r.Some? ==> EncodeFixed(order, r.value.0) + r.value.1 == s
  {
    var (flags, s1) :- ReadByte(s);
    var (len, s2) :- ReadUnsignedShort(order, s1);
    Some((f.(flags := flags, lengthInBits := len), s2))
  }

  lemma DecodeFixedOfEncode(order: Endian, f: Frame, g: Frame, rest: seq<byte>)
    ensures DecodeFixed(order, f, EncodeFixed(order, g) + rest)
         == Some((f.(flags := g.flags, lengthInBits := g.lengthInBits), rest))
  {
    var tail := WriteUnsignedShort(order, g.lengthInBits) + rest;
    assert EncodeFixed(order, g) + rest == WriteByte(g.flags) + tail;
    ReadByteOfWrite(g.flags, tail);
    ReadUnsignedShortOfWrite(order, g.lengthInBits, rest);
  }

  function EncodeReliable(f: Frame): (s: seq<byte>)
    ensures |s| == ReliableWidth(f.flags)
  {
    if HasReliableIndex(ReliabilityType(f.flags)) then WriteUint24Le(f.reliableFrameIndex) else []
  }

  function DecodeReliable(f: Frame, s: seq<byte>): (r: Option<(Frame, seq<byte>)>)
    ensures r.Some? <==> ReliableWidth(f.flags) <= |s|
    ensures r.Some? ==> r.value.0 == f.(reliableFrameIndex := r.value.0.reliableFrameIndex)
    ensures r.Some? && !HasReliableIndex(ReliabilityType(f.flags)) ==> r.value.0 == f
    ensures r.Some? ==> EncodeReliable(r.value.0) + r.value.1 == s
  {
    if HasReliableIndex(ReliabilityType(f.flags)) then
      var (v, rest) :- ReadUint24Le(s);
      Some((f.(reliableFrameIndex := v), rest))
    else
      Some((f, s))
  }

  lemma DecodeReliableOfEncode(f: Frame, g: Frame, rest: seq<byte>)
    requires f.flags == g.flags
    ensures DecodeReliable(f, EncodeReliable(g) + rest)
         == Some((if HasReliableIndex(ReliabilityType(f.flags)) then f.(reliableFrameIndex := g.reliableFrameIndex) else f, rest))
  {
    if HasReliableIndex(ReliabilityType(f.flags)) {
      ReadUint24LeOfWrite(g.reliableFrameIndex, rest);
    } else {
      assert EncodeReliable(g) + rest == rest;
    }
  }

  function EncodeSequenced(f: Frame): (s: seq<byte>)
    ensures |s| == SequencedWidth(f.flags)
  {
    if HasSequencedIndex(ReliabilityType(f.flags)) then WriteUint24Le(f.sequencedFrameIndex) else []
  }

  function DecodeSequenced(f: Frame, s: seq<byte>): (r: Option<(Frame, seq<byte>)>)
    ensures r.Some? <==> SequencedWidth(f.flags) <= |s|
    ensures r.Some? ==> r.value.0 == f.(sequencedFrameIndex := r.value.0.sequencedFrameIndex)
    ensures r.Some? && !HasSequencedIndex(ReliabilityType(f.flags)) ==> r.value.0 == f
    ensures r.Some? ==> EncodeSequenced(r.value.0) + r.value.1 == s
  {
    if HasSequencedIndex(ReliabilityType(f.flags)) then
      var (v, rest) :- ReadUint24Le(s);
      Some((f.(sequencedFrameIndex := v), rest))
    else
      Some((f, s))
  }

  lemma DecodeSequencedOfEncode(f: Frame, g: Frame, rest: seq<byte>)
    requires f.flags == g.flags
    ensures DecodeSequenced(f, EncodeSequenced(g) + rest)
         == Some((if HasSequencedIndex(ReliabilityType(f.flags)) then f.(sequencedFrameIndex := g.sequencedFrameIndex) else f, rest))
  {
    if HasSequencedIndex(ReliabilityType(f.flags)) {
      ReadUint24LeOfWrite(g.sequencedFrameIndex, rest);
    } else {
      assert EncodeSequenced(g) + rest == rest;
    }
  }

  function EncodeOrdered(f: Frame): (s: seq<byte>)
    ensures |s| == OrderedWidth(f.flags)
  {
    if HasOrderedIndex(ReliabilityType(f.flags)) then
      WriteUint24Le(f.orderedFrameIndex) + WriteByte(f.orderChannel)
    else
      []
  }

  function DecodeOrdered(f: Frame, s: seq<byte>): (r: Option<(Frame, seq<byte>)>)
    ensures r.Some? <==> OrderedWidth(f.flags) <= |s|
    ensures r.Some? ==> r.value.0 == f.(orderedFrameIndex := r.value.0.orderedFrameIndex, orderChannel := r.value.0.orderChannel)
    ensures r.Some? && !HasOrderedIndex(ReliabilityType(f.flags)) ==> r.value.0 == f
    ensures r.Some? ==> EncodeOrdered(r.value.0) + r.value.1 == s
  {
    if HasOrderedIndex(ReliabilityType(f.flags)) then
      var (v, s1) :- ReadUint24Le(s);
      var (c, s2) :- ReadByte(s1);
      Some((f.(orderedFrameIndex := v, orderChannel := c), s2))
    else
      Some((f, s))
  }

  lemma DecodeOrderedOfEncode(f: Frame, g: Frame, rest: seq<byte>)
    requires f.flags == g.flags
    ensures DecodeOrdered(f, EncodeOrdered(g) + rest)
         == Some((if HasOrderedIndex(ReliabilityType(f.flags))
                  then f.(orderedFrameIndex := g.orderedFrameIndex, orderChannel := g.orderChannel)
                  else f, rest))
  {
    if HasOrderedIndex(ReliabilityType(f.flags)) {
      var tail := WriteByte(g.orderChannel) + rest;
      assert EncodeOrdered(g) + rest == WriteUint24Le(g.orderedFrameIndex) + tail;
      ReadUint24LeOfWrite(g.orderedFrameIndex, tail);
      ReadByteOfWrite(g.orderChannel, rest);
    } else {
      assert EncodeOrdered(g) + rest == rest;
    }
  }

  function EncodeFragment(order: Endian, f: Frame): (s: seq<byte>)
    ensures |s| == FragmentWidth(f.flags)
  {
    if IsFragmented(f.flags) then
      WriteInt(order, f.compoundSize) + WriteShort(order, f.compoundId) + WriteInt(order, f.index)
    else
      []
  }

  function DecodeFragment(order: Endian, f: Frame, s: seq<byte>): (r: Option<(Frame, seq<byte>)>)
    ensures r.Some? <==> FragmentWidth(f.flags) <= |s|
    ensures r.Some? ==> r.value.0 == f.(compoundSize := r.value.0.compoundSize, compoundId := r.value.0.compoundId, index := r.value.0.index)
    ensures r.Some? && !IsFragmented(f.flags) ==> r.value.0 == f
    ensures r.Some? ==> EncodeFragment(order, r.value.0) + r.value.1 == s
  {
    if IsFragmented(f.flags) then
      var (size, s1) :- ReadInt(order, s);
      var (id, s2) :- ReadShort(order, s1);
      var (idx, s3) :- ReadInt(order, s2);
      Some((f.(compoundSize := size, compoundId := id, index := idx), s3))
    else
      Some((f, s))
  }

  lemma DecodeFragmentOfEncode(order: Endian, f: Frame, g: Frame, rest: seq<byte>)
    requires f.flags == g.flags
    ensures DecodeFragment(order, f, EncodeFragment(order, g) + rest)
         == Some((if IsFragmented(f.flags)
                  then f.(compoundSize := g.compoundSize, compoundId := g.compoundId, index := g.index)
                  else f, rest))
  {
    if IsFragmented(f.flags) {
      var t2 := WriteInt(order, g.index) + rest;
      var t1 := WriteShort(order, g.compoundId) + t2;
      assert EncodeFragment(order, g) + rest == WriteInt(order, g.compoundSize) + t1;
      ReadIntOfWrite(order, g.compoundSize, t1);
      ReadShortOfWrite(order, g.compoundId, t2);
      ReadIntOfWrite(order, g.index, rest);
    } else {
      assert EncodeFragment(order, g) + rest == rest;
    }
  }

  /** Reads the body: exactly `BodyLength(f.lengthInBits)` raw bytes, whether
      or not the frame is fragmented. */
  function DecodeBody(f: Frame, s: seq<byte>): (r: Option<(Frame, seq<byte>)>)
    ensures r.Some? <==> BodyLength(f.lengthInBits) <= |s|
    ensures r.Some? ==> r.value.0 == f.(body := r.value.0.body) && BodyMatchesLength(r.value.0)
    ensures r.Some? ==> Write(r.value.0.body) + r.value.1 == s
  {
    var (body, rest) :- Read(s, BodyLength(f.lengthInBits));
    Some((f.(body := body), rest))
  }

  lemma DecodeBodyOfEncode(f: Frame, g: Frame, rest: seq<byte>)
    requires f.lengthInBits == g.lengthInBits && BodyMatchesLength(g)
    ensures DecodeBody(f, Write(g.body) + rest) == Some((f.(body := g.body), rest))
  {
    ReadOfWrite(g.body, rest);
  }

  /* ---------------------------------------------------------------------- */
  /* The codec                                                              */
  /* ---------------------------------------------------------------------- */

  /** `encode`: the wire bytes of `f`. The body is written verbatim; its
      length is not checked against `lengthInBits`. */
  function Encode(order: Endian, f: Frame): (s: seq<byte>)
    ensures |s| == HeaderSize(f.flags) + |f.body|
  {
    EncodeFixed(order, f) + EncodeReliable(f) + EncodeSequenced(f) + EncodeOrdered(f)
      + EncodeFragment(order, f) + Write(f.body)
  }

  /** `decode` into an existing frame `prior`: reads one frame from the front
      of `s` and returns it together with the bytes after it, or `None` when
      `s` ends before the frame does. */
  function DecodeOnto(order: Endian, prior: Frame, s: seq<byte>): (r: Option<(Frame, seq<byte>)>)
    ensures r.Some? ==> |s| == HeaderSize(r.value.0.flags) + |r.value.0.body| + |r.value.1|
    ensures r.Some? ==> BodyMatchesLength(r.value.0)
    ensures r.Some? ==> Overlay(prior, r.value.0) == r.value.0
  {
    var (f0, s0) :- DecodeFixed(order, prior, s);
    var (f1, s1) :- DecodeReliable(f0, s0);
    var (f2, s2) :- DecodeSequenced(f1, s1);
    var (f3, s3) :- DecodeOrdered(f2, s2);
    var (f4, s4) :- DecodeFragment(order, f3, s3);
    DecodeBody(f4, s4)
  }

  /** `decode` into a freshly constructed frame. */
  function Decode(order: Endian, s: seq<byte>): (r: Option<(Frame, seq<byte>)>)
    ensures r.Some? ==> WellFormed(r.value.0)
    ensures |s| < 3 ==> r.None?
  {
    DecodeOnto(order, NewFrame(), s)
  }

  /* ---------------------------------------------------------------------- */
  /* Round trips                                                            */
  /* ---------------------------------------------------------------------- */

  /** Decoding the bytes of a frame whose body matches its length gives the
      frame back, as `prior` overlaid with it, and leaves whatever followed
      the frame untouched. */
  lemma DecodeOntoOfEncode(order: Endian, prior: Frame, f: Frame, rest: seq<byte>)
    requires BodyMatchesLength(f)
    ensures DecodeOnto(order, prior, Encode(order, f) + rest) == Some((Overlay(prior, f), rest))
  {
    var rt := ReliabilityType(f.flags);
    var e5 := Write(f.body) + rest;
    var e4 := EncodeFragment(order, f) + e5;
    var e3 := EncodeOrdered(f) + e4;
    var e2 := EncodeSequenced(f) + e3;
    var e1 := EncodeReliable(f) + e2;
    var s := Encode(order, f) + rest;
    EncodeAsSegments(order, f, rest);
    DecodeFixedOfEncode(order, prior, f, e1);
    var f0 := prior.(flags := f.flags, lengthInBits := f.lengthInBits);
    DecodeReliableOfEncode(f0, f, e2);
    var f1 := if HasReliableIndex(rt) then f0.(reliableFrameIndex := f.reliableFrameIndex) else f0;
    DecodeSequencedOfEncode(f1, f, e3);
    var f2 := if HasSequencedIndex(rt) then f1.(sequencedFrameIndex := f.sequencedFrameIndex) else f1;
    DecodeOrderedOfEncode(f2, f, e4);
    var f3 := if HasOrderedIndex(rt) then f2.(orderedFrameIndex := f.orderedFrameIndex, orderChannel := f.orderChannel) else f2;
    DecodeFragmentOfEncode(order, f3, f, e5);
    var f4 := if IsFragmented(f.flags) then f3.(compoundSize := f.compoundSize, compoundId := f.compoundId, index := f.index) else f3;
    DecodeBodyOfEncode(f4, f, rest);
    assert DecodeOnto(order, prior, s) == DecodeBody(f4, e5);
    OverlayBySegments(prior, f, f0, f1, f2, f3, f4);
  }

  /** The frame the decoding steps build up, one segment at a time, is the
      overlay of the encoded frame on the starting one. */
  lemma OverlayBySegments(prior: Frame, f: Frame, f0: Frame, f1: Frame, f2: Frame, f3: Frame, f4: Frame)
    requires f0 == prior.(flags := f.flags, lengthInBits := f.lengthInBits)
    requires f1 == if HasReliableIndex(ReliabilityType(f.flags)) then f0.(reliableFrameIndex := f.reliableFrameIndex) else f0
    requires f2 == if HasSequencedIndex(ReliabilityType(f.flags)) then f1.(sequencedFrameIndex := f.sequencedFrameIndex) else f1
    requires f3 == if HasOrderedIndex(ReliabilityType(f.flags))
                   then f2.(orderedFrameIndex := f.orderedFrameIndex, orderChannel := f.orderChannel) else f2
    requires f4 == if IsFragmented(f.flags)
                   then f3.(compoundSize := f.compoundSize, compoundId := f.compoundId, index := f.index) else f3
    ensures f4.(body := f.body) == Overlay(prior, f)
  {
  }

  /** The segments of `Encode`, regrouped to the right. */
  lemma EncodeAsSegments(order: Endian, f: Frame, rest: seq<byte>)
    ensures Encode(order, f) + rest
         == EncodeFixed(order, f) + (EncodeReliable(f) + (EncodeSequenced(f) + (EncodeOrdered(f)
              + (EncodeFragment(order, f) + (Write(f.body) + rest)))))
  {
  }

  /** Whatever a successful decode returns re-encodes to exactly the bytes it
      consumed; fields it did not read are as in `prior`; its body matches
      its length. */
  lemma DecodeOntoInverse(order: Endian, prior: Frame, s: seq<byte>)
    ensures DecodeOnto(order, prior, s).Some? ==>
      var (g, rest) := DecodeOnto(order, prior, s).value;
      && Encode(order, g) + rest == s
      && Overlay(prior, g) == g
      && BodyMatchesLength(g)
  {
    var d0 := DecodeFixed(order, prior, s);
    if d0.Some? {
      var (f0, s0) := d0.value;
      var d1 := DecodeReliable(f0, s0);
      if d1.Some? {
        var (f1, s1) := d1.value;
        var d2 := DecodeSequenced(f1, s1);
        if d2.Some? {
          var (f2, s2) := d2.value;
          var d3 := DecodeOrdered(f2, s2);
          if d3.Some? {
            var (f3, s3) := d3.value;
            var d4 := DecodeFragment(order, f3, s3);
            if d4.Some? {
              var (f4, s4) := d4.value;
              var d5 := DecodeBody(f4, s4);
              if d5.Some? {
                var (g, rest) := d5.value;
                assert DecodeOnto(order, prior, s) == d5;
                assert EncodeFixed(order, g) == EncodeFixed(order, f0);
                assert EncodeReliable(g) == EncodeReliable(f1);
                assert EncodeSequenced(g) == EncodeSequenced(f2);
                assert EncodeOrdered(g) == EncodeOrdered(f3);
                assert EncodeFragment(order, g) == EncodeFragment(order, f4);
                EncodeAsSegments(order, g, rest);
              }
            }
          }
        }
      }
    }
  }

  /** The number of bytes the frame at the front of `s` occupies, as its
      flags byte and length field announce it. */
  function FrameSize(order: Endian, s: seq<byte>): nat
    requires 3 <= |s|
  {
    HeaderSize(s[0]) + BodyLength(UnsignedValue(order, s[1..3]))
  }

  /** Decoding succeeds exactly when `s` holds the whole frame its first three
      bytes announce, and then consumes exactly that many bytes: a short
      buffer is an error, never a truncated body. */
  lemma DecodeOntoSucceedsIff(order: Endian, prior: Frame, s: seq<byte>)
    ensures DecodeOnto(order, prior, s).Some? <==> 3 <= |s| && FrameSize(order, s) <= |s|
    ensures DecodeOnto(order, prior, s).Some? ==> DecodeOnto(order, prior, s).value.1 == s[FrameSize(order, s)..]
  {
    var d0 := DecodeFixed(order, prior, s);
    if d0.Some? {
      var (f0, s0) := d0.value;
      assert s == EncodeFixed(order, f0) + s0;
      assert s[0] == f0.flags;
      assert s[1..3] == WriteUnsignedShort(order, f0.lengthInBits);
      UnsignedValueOfBytes(order, f0.lengthInBits, 2);
      var size := FrameSize(order, s);
      assert size == HeaderSize(f0.flags) + BodyLength(f0.lengthInBits);
      var d1 := DecodeReliable(f0, s0);
      if d1.Some? {
        var (f1, s1) := d1.value;
        assert f1.flags == f0.flags && f1.lengthInBits == f0.lengthInBits;
        assert |s1| == |s| - 3 - ReliableWidth(f0.flags);
        var d2 := DecodeSequenced(f1, s1);
        if d2.Some? {
          var (f2, s2) := d2.value;
          assert |s2| == |s1| - SequencedWidth(f0.flags);
          var d3 := DecodeOrdered(f2, s2);
          if d3.Some? {
            var (f3, s3) := d3.value;
            assert |s3| == |s2| - OrderedWidth(f0.flags);
            var d4 := DecodeFragment(order, f3, s3);
            if d4.Some? {
              var (f4, s4) := d4.value;
              assert |s4| == |s3| - FragmentWidth(f0.flags);
              assert |s4| == |s| - HeaderSize(f0.flags);
              var d5 := DecodeBody(f4, s4);
              assert DecodeOnto(order, prior, s) == d5;
              if d5.Some? {
                var (g, rest) := d5.value;
                assert |rest| == |s| - size;
                DecodeOntoInverse(order, prior, s);
                assert s == Encode(order, g) + rest;
                assert rest == s[size..];
              }
            }
          }
        }
      }
    }
  }

  /** A freshly decoded frame and the bytes after it are exactly the frames
      that carry zeros in their absent fields and a body matching their
      length, followed by anything. */
  lemma DecodeIff(order: Endian, s: seq<byte>, f: Frame, rest: seq<byte>)
    ensures Decode(order, s) == Some((f, rest)) ==> WellFormed(f) && s == Encode(order, f) + rest
    ensures WellFormed(f) && s == Encode(order, f) + rest ==> Decode(order, s) == Some((f, rest))
  {
    if Decode(order, s) == Some((f, rest)) {
      DecodeOntoInverse(order, NewFrame(), s);
    }
    if WellFormed(f) && s == Encode(order, f) + rest {
      DecodeOntoOfEncode(order, NewFrame(), f, rest);
    }
  }

  /** Fields the flags leave off the wire are never written: two frames that
      agree on every present field encode identically. */
  lemma EncodeIgnoresAbsentFields(order: Endian, prior: Frame, f: Frame)
    ensures Encode(order, Overlay(prior, f)) == Encode(order, f)
  {
    var g := Overlay(prior, f);
    assert EncodeFixed(order, g) == EncodeFixed(order, f);
    assert EncodeReliable(g) == EncodeReliable(f);
    assert EncodeSequenced(g) == EncodeSequenced(f);
    assert EncodeOrdered(g) == EncodeOrdered(f);
    assert EncodeFragment(order, g) == EncodeFragment(order, f);
  }

  /* ---------------------------------------------------------------------- */
  /* Field order and sizes                                                  */
  /* ---------------------------------------------------------------------- */

  function SequencedOffset(flags: byte): nat
  {
    3 + ReliableWidth(flags)
  }

  function OrderedOffset(flags: byte): nat
  {
    SequencedOffset(flags) + SequencedWidth(flags)
  }

  function FragmentOffset(flags: byte): nat
  {
    OrderedOffset(flags) + OrderedWidth(flags)
  }

  /** Where each field sits in the encoding: flags, length, reliable index,
      sequenced index, ordered index, order channel, compound size, compound
      id, index, body, each present field right after the previous present
      one. */
  lemma EncodeFieldOrder(order: Endian, f: Frame)
    ensures var s := Encode(order, f);
      && |s| == FragmentOffset(f.flags) + FragmentWidth(f.flags) + |f.body|
      && s[0] == f.flags
      && s[1..3] == WriteUnsignedShort(order, f.lengthInBits)
      && (HasReliableIndex(ReliabilityType(f.flags)) ==> s[3..6] == WriteUint24Le(f.reliableFrameIndex))
      && (HasSequencedIndex(ReliabilityType(f.flags)) ==>
            var o := SequencedOffset(f.flags);
            s[o..o + 3] == WriteUint24Le(f.sequencedFrameIndex))
      && (HasOrderedIndex(ReliabilityType(f.flags)) ==>
            var o := OrderedOffset(f.flags);
            s[o..o + 3] == WriteUint24Le(f.orderedFrameIndex) && s[o + 3] == f.orderChannel)
      && (IsFragmented(f.flags) ==>
            var o := FragmentOffset(f.flags);
            && s[o..o + 4] == WriteInt(order, f.compoundSize)
            && s[o + 4..o + 6] == WriteShort(order, f.compoundId)
            && s[o + 6..o + 10] == WriteInt(order, f.index))
      && s[FragmentOffset(f.flags) + FragmentWidth(f.flags)..] == f.body
  {
    var s := Encode(order, f);
    SegmentsAt(order, f);
    if HasOrderedIndex(ReliabilityType(f.flags)) {
      var p := OrderedOffset(f.flags);
      var ord := s[p..p + 4];
      assert ord == WriteUint24Le(f.orderedFrameIndex) + WriteByte(f.orderChannel);
      PrefixAt(ord, WriteUint24Le(f.orderedFrameIndex), WriteByte(f.orderChannel));
      SliceOfSlice(s, p, p + 4, 0, 3);
      assert s[p + 3] == ord[3];
    }
    if IsFragmented(f.flags) {
      var o := FragmentOffset(f.flags);
      var frag := s[o..o + 10];
      var w1 := WriteInt(order, f.compoundSize);
      var w2 := WriteShort(order, f.compoundId);
      var w3 := WriteInt(order, f.index);
      assert frag == w1 + w2 + w3;
      ThreeParts(frag, w1, w2, w3);
      SliceOfSlice(s, o, o + 10, 0, 4);
      SliceOfSlice(s, o, o + 10, 4, 6);
      SliceOfSlice(s, o, o + 10, 6, 10);
    }
  }

  lemma SliceOfSlice(s: seq<byte>, i: nat, j: nat, k: nat, l: nat)
    requires i <= j <= |s| && k <= l <= j - i
    ensures s[i..j][k..l] == s[i + k..i + l]
  {
    forall t | 0 <= t < l - k
      ensures s[i..j][k..l][t] == s[i + k..i + l][t]
    {
      assert s[i..j][k..l][t] == s[i..j][k + t] == s[i + k + t];
    }
  }

  lemma ThreeParts(s: seq<byte>, x: seq<byte>, y: seq<byte>, z: seq<byte>)
    requires s == x + y + z
    ensures s[..|x|] == x && s[|x|..|x| + |y|] == y && s[|x| + |y|..] == z
  {
    assert s[..|x|] == x;
    assert s[|x|..|x| + |y|] == y;
    assert s[|x| + |y|..] == z;
  }

  /** Each segment of `Encode` sits at its offset. */
  lemma SegmentsAt(order: Endian, f: Frame)
    ensures var s := Encode(order, f);
      && s[..3] == EncodeFixed(order, f)
      && s[3..SequencedOffset(f.flags)] == EncodeReliable(f)
      && s[SequencedOffset(f.flags)..OrderedOffset(f.flags)] == EncodeSequenced(f)
      && s[OrderedOffset(f.flags)..FragmentOffset(f.flags)] == EncodeOrdered(f)
      && s[FragmentOffset(f.flags)..HeaderSize(f.flags)] == EncodeFragment(order, f)
      && s[HeaderSize(f.flags)..] == f.body
  {
    var s := Encode(order, f);
    var a := EncodeFixed(order, f) + EncodeReliable(f);
    var b := a + EncodeSequenced(f);
    var c := b + EncodeOrdered(f);
    var d := c + EncodeFragment(order, f);
    assert s == d + f.body;
    PrefixAt(s, d, f.body);
    PrefixAt(d, c, EncodeFragment(order, f));
    PrefixAt(c, b, EncodeOrdered(f));
    PrefixAt(b, a, EncodeSequenced(f));
    PrefixAt(a, EncodeFixed(order, f), EncodeReliable(f));
  }

  /** In `s == x + y`, `x` is the prefix up to `|x|` and `y` the rest; so
      is any slice within `x`. */
  lemma PrefixAt(s: seq<byte>, x: seq<byte>, y: seq<byte>)
    requires s == x + y
    ensures s[..|x|] == x && s[|x|..] == y
    ensures forall i, j :: 0 <= i <= j <= |x| ==> s[i..j] == x[i..j]
  {
  }

  /** The header size in terms of the guarantees of the reliability type: three
      bytes each for a reliable and a sequenced index, four for an ordered
      index with its channel, ten for the fragment header. */
  lemma HeaderSizeByReliability(flags: byte)
    ensures var r := ReliabilityOf(ReliabilityType(flags));
      HeaderSize(flags)
      == 3 + (if r.IsReliable() then 3 else 0) + (if r.IsSequenced() then 3 else 0)
           + (if r.IsOrdered() then 4 else 0) + (if IsFragmented(flags) then 10 else 0)
  {
    PresenceMatchesReliability(ReliabilityType(flags));
  }

  /** An unreliable, unfragmented frame is three header bytes and its body. */
  lemma UnreliableFrameSize(order: Endian, f: Frame)
    requires ReliabilityType(f.flags) == 0 && !IsFragmented(f.flags)
    ensures |Encode(order, f)| == 3 + |f.body|
  {
  }

  /** The body length is the number of bytes needed for the bits: one bit and
      eight bits take one byte, nine take two, and a length of eight bits
      per byte gives the byte count back. */
  lemma BodyLengthOfBits(bytes: nat)
    ensures BodyLength(1) == 1 && BodyLength(8) == 1 && BodyLength(9) == 2 && BodyLength(0) == 0
    ensures BodyLength(8 * bytes) == bytes
  {
  }

  /** Every strict prefix of the encoding of a frame whose body matches its
      length fails to decode. */
  lemma TruncatedFrameFails(order: Endian, prior: Frame, f: Frame, k: nat)
    requires BodyMatchesLength(f) && k < |Encode(order, f)|
    ensures DecodeOnto(order, prior, Encode(order, f)[..k]).None?
  {
    var s := Encode(order, f)[..k];
    DecodeOntoSucceedsIff(order, prior, s);
    if 3 <= k {
      PrefixFrameSize(order, f, k);
    }
  }

  /** A prefix of a frame's encoding that holds the flags and the length
      announces the whole encoding. */
  lemma PrefixFrameSize(order: Endian, f: Frame, k: nat)
    requires BodyMatchesLength(f) && 3 <= k <= |Encode(order, f)|
    ensures FrameSize(order, Encode(order, f)[..k]) == |Encode(order, f)|
  {
    var e := Encode(order, f);
    var s := e[..k];
    var fixed := EncodeFixed(order, f);
    assert e == fixed + (e[3..]);
    assert s[..3] == fixed;
    assert s[1..3] == fixed[1..3] == WriteUnsignedShort(order, f.lengthInBits);
    UnsignedValueOfBytes(order, f.lengthInBits, 2);
  }

  /** `Encode` does not check the body against `lengthInBits`. When the body
      is longer than announced, decoding the result reads only the announced
      bytes and leaves the surplus as if it followed the frame. */
  lemma LongBodySpillsOver(order: Endian, prior: Frame, f: Frame)
    requires BodyLength(f.lengthInBits) <= |f.body|
    ensures var n := BodyLength(f.lengthInBits);
      DecodeOnto(order, prior, Encode(order, f)) == Some((Overlay(prior, f.(body := f.body[..n])), f.body[n..]))
  {
    var n := BodyLength(f.lengthInBits);
    EncodeSplitsBody(order, f, n);
    DecodeOntoOfEncode(order, prior, f.(body := f.body[..n]), f.body[n..]);
  }

  /** The encoding of a frame is the encoding of the frame with a prefix of
      its body, followed by the rest of the body. */
  lemma EncodeSplitsBody(order: Endian, f: Frame, n: nat)
    requires n <= |f.body|
    ensures Encode(order, f) == Encode(order, f.(body := f.body[..n])) + f.body[n..]
  {
    var g := f.(body := f.body[..n]);
    var header := EncodeFixed(order, f) + EncodeReliable(f) + EncodeSequenced(f) + EncodeOrdered(f)
      + EncodeFragment(order, f);
    assert Encode(order, f) == header + f.body;
    assert Encode(order, g) == header + g.body;
    assert f.body == g.body + f.body[n..];
  }

  /** When the body is shorter than announced, the encoding does not decode. */
  lemma ShortBodyFails(order: Endian, prior: Frame, f: Frame)
    requires |f.body| < BodyLength(f.lengthInBits)
    ensures DecodeOnto(order, prior, Encode(order, f)).None?
  {
    var s := Encode(order, f);
    EncodeFieldOrder(order, f);
    UnsignedValueOfBytes(order, f.lengthInBits, 2);
    assert FrameSize(order, s) == HeaderSize(f.flags) + BodyLength(f.lengthInBits);
    DecodeOntoSucceedsIff(order, prior, s);
  }

  /* ---------------------------------------------------------------------- */
  /* Frames back to back in one buffer                                      */
  /* ---------------------------------------------------------------------- */

  /** The frames written one after another. */
  function EncodeFrames(order: Endian, fs: seq<Frame>): seq<byte>
  {
    if |fs| == 0 then [] else Encode(order, fs[0]) + EncodeFrames(order, fs[1..])
  }

  /** Decodes frames one after another, each from the byte after the previous
      one, until the buffer is used up; `None` if any frame is cut short. */
  function DecodeFrames(order: Endian, s: seq<byte>): Option<seq<Frame>>
    decreases |s|
  {
    if |s| == 0 then
      Some([])
    else
      DecodeShortens(order, s);
      match Decode(order, s)
      case None => None
      case Some((f, rest)) =>
        var fs :- DecodeFrames(order, rest);
        Some([f] + fs)
  }

  /** A successful decode consumes at least the three fixed header bytes. */
  lemma DecodeShortens(order: Endian, s: seq<byte>)
    ensures Decode(order, s).Some? ==> |Decode(order, s).value.1| + 3 <= |s|
  {
    DecodeOntoInverse(order, NewFrame(), s);
  }

  /** Because each decode consumes exactly its own frame, frames written back
      to back are read back one by one. */
  lemma {:induction false} DecodeFramesOfEncode(order: Endian, fs: seq<Frame>)
    requires forall i :: 0 <= i < |fs| ==> WellFormed(fs[i])
    ensures DecodeFrames(order, EncodeFrames(order, fs)) == Some(fs)
  {
    if |fs| > 0 {
      DecodeFramesOfEncode(order, fs[1..]);
      DecodeFramesCons(order, fs);
    }
  }

  /** One well-formed frame in front of frames that decode adds itself in
      front of them. */
  lemma DecodeFramesCons(order: Endian, fs: seq<Frame>)
    requires |fs| > 0 && WellFormed(fs[0])
    requires DecodeFrames(order, EncodeFrames(order, fs[1..])) == Some(fs[1..])
    ensures DecodeFrames(order, EncodeFrames(order, fs)) == Some(fs)
  {
    DecodeFirstFrame(order, fs);
    DecodeFramesUnfold(order, EncodeFrames(order, fs), fs[0], EncodeFrames(order, fs[1..]));
    assert [fs[0]] + fs[1..] == fs;
  }

  /** The first of several encoded frames decodes first. */
  lemma DecodeFirstFrame(order: Endian, fs: seq<Frame>)
    requires |fs| > 0 && WellFormed(fs[0])
    ensures Decode(order, EncodeFrames(order, fs)) == Some((fs[0], EncodeFrames(order, fs[1..])))
  {
    DecodeIff(order, EncodeFrames(order, fs), fs[0], EncodeFrames(order, fs[1..]));
  }

  lemma DecodeFramesUnfold(order: Endian, s: seq<byte>, f: Frame, rest: seq<byte>)
    requires Decode(order, s) == Some((f, rest))
    ensures DecodeFrames(order, rest).None? ==> DecodeFrames(order, s).None?
    ensures DecodeFrames(order, rest).Some? ==> DecodeFrames(order, s) == Some([f] + DecodeFrames(order, rest).value)
  {
    DecodeShortens(order, s);
  }

  /** Conversely, a buffer that decodes into frames is exactly their
      encodings back to back. */
  lemma {:induction false} EncodeFramesOfDecode(order: Endian, s: seq<byte>)
    requires DecodeFrames(order, s).Some?
    ensures var fs := DecodeFrames(order, s).value;
      && EncodeFrames(order, fs) == s
      && forall i :: 0 <= i < |fs| ==> WellFormed(fs[i])
    decreases |s|
  {
    if |s| > 0 {
      var (f, rest) := Decode(order, s).value;
      DecodeIff(order, s, f, rest);
      EncodeFramesOfDecode(order, rest);
      var fs := DecodeFrames(order, s).value;
      assert fs == [f] + DecodeFrames(order, rest).value;
      assert fs[1..] == DecodeFrames(order, rest).value;
    }
  }

  /* ---------------------------------------------------------------------- */
  /* The example datagram                                                   */
  /* ---------------------------------------------------------------------- */

  /** The body of the example frame: 18 bytes. */
  const ExampleBody: seq<byte> := [
    0x09, 0xb3, 0x3b, 0xc8, 0x31, 0xbe, 0xfb, 0x96, 0x2a,
    0x00, 0x00, 0x00, 0x00, 0x00, 0x00, 0xdb, 0xf2, 0x00]

  /** The example frame on the wire: flags 0x40, length 0x0090, a 24-bit
      reliable index, then the body. */
  const ExampleFrameBytes: seq<byte> := [0x40, 0x00, 0x90, 0x00, 0x00, 0x00] + ExampleBody

  /** The example datagram: packet id 0x84 and a 24-bit sequence number, which
      the frame codec neither reads nor writes, then one frame. */
  const ExampleDatagram: seq<byte> := [0x84, 0x00, 0x00, 0x00] + ExampleFrameBytes

  /** Its frame: reliable (type 2), not fragmented, 144 bits of body. */
  const ExampleFrame: Frame := Frame(0x40, 144, 0, 0, 0, 0, 0, 0, 0, ExampleBody)

  lemma ExampleWriteLength()
    ensures WriteUnsignedShort(BigEndian, 144) == [0x00, 0x90]
  {
    assert LittleEndianBytes(0, 0) == [];
    assert LittleEndianBytes(0, 1) == [0x00];
    assert LittleEndianBytes(144, 2) == [0x90, 0x00];
  }

  lemma ExampleWriteIndex()
    ensures WriteUint24Le(0) == [0x00, 0x00, 0x00]
  {
    assert LittleEndianBytes(0, 0) == [];
    assert LittleEndianBytes(0, 1) == [0x00];
    assert LittleEndianBytes(0, 2) == [0x00, 0x00];
  }

  /** The example frame encodes to the bytes after the datagram header. */
  lemma ExampleFrameEncodes()
    ensures Encode(BigEndian, ExampleFrame) == ExampleFrameBytes
  {
    var f := ExampleFrame;
    ExampleHeaderSize();
    ExampleWriteLength();
    ExampleWriteIndex();
    assert EncodeFixed(BigEndian, f) == [0x40, 0x00, 0x90];
    assert EncodeReliable(f) == [0x00, 0x00, 0x00];
    assert EncodeSequenced(f) == [] && EncodeOrdered(f) == [] && EncodeFragment(BigEndian, f) == [];
    assert Encode(BigEndian, f) == [0x40, 0x00, 0x90] + [0x00, 0x00, 0x00] + ExampleBody;
  }

  /** With big-endian 16-bit fields, the bytes after the datagram header
      decode to the example frame, a reliable (type 2), unfragmented frame
      with reliable index 0 and an 18-byte body, and nothing is left over. */
  lemma ExampleFrameDecodes()
    ensures ReliabilityType(ExampleFrame.flags) == 2 && !IsFragmented(ExampleFrame.flags)
    ensures |ExampleFrame.body| == 18
    ensures Decode(BigEndian, ExampleFrameBytes) == Some((ExampleFrame, []))
  {
    var f := ExampleFrame;
    ExampleHeaderSize();
    ExampleFrameEncodes();
    assert BodyMatchesLength(f);
    assert Normalized(f);
    DecodeIff(BigEndian, ExampleFrameBytes, f, []);
  }

  lemma ExampleReadLengthLittleEndian()
    ensures UnsignedValue(LittleEndian, [0x00, 0x90]) == 0x9000
  {
    assert [0x00, 0x90][1..] == [0x90];
    assert LittleEndianValue([0x90]) == 0x90;
  }

  lemma ExampleHeaderSize()
    ensures ReliabilityType(0x40) == 2 && !IsFragmented(0x40)
    ensures HeaderSize(0x40) == 6
  {
    assert ReliabilityType(0x40) == 2 && FragmentBit(0x40) == 0;
  }

  /** With little-endian 16-bit fields the same bytes announce a 36864-bit
      body and fail to decode: the example fixes the byte order. */
  lemma ExampleNeedsBigEndian()
    ensures Decode(LittleEndian, ExampleFrameBytes).None?
  {
    var s := ExampleFrameBytes;
    assert s[0] == 0x40 && s[1..3] == [0x00, 0x90];
    ExampleReadLengthLittleEndian();
    ExampleHeaderSize();
    assert BodyLength(0x9000) == 0x1200;
    assert FrameSize(LittleEndian, s) == 6 + 0x1200;
    DecodeOntoSucceedsIff(LittleEndian, NewFrame(), s);
  }
}
