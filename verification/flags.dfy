/** The frame's `flags` byte: bits 7-5 hold the reliability type, bit 4 the
    fragmentation flag, bits 3-0 are carried but not interpreted. The
    presence predicates say which optional header fields follow on the wire;
    the `Reliability` taxonomy is the table of reliability types the codec
    documents, against which the predicates are checked. */
module Flags {
  import opened Buffer

  /** `(flags >> 5) & 0x07` */
  function ReliabilityType(flags: byte): (rt: nat)
    ensures rt < 8
  {
    (flags / 32) % 8
  }

  /** `(flags >> 4) & 0x01` */
  function FragmentBit(flags: byte): (b: nat)
    ensures b < 2
  {
    (flags / 16) % 2
  }

  predicate IsFragmented(flags: byte)
  {
    FragmentBit(flags) == 1
  }

  /** The low nibble, which the codec carries through unchanged. */
  function ReservedBits(flags: byte): (low: nat)
    ensures low < 16
  {
    flags % 16
  }

  /** The flags byte with the given reliability type, fragmentation flag and
      reserved bits. */
  function MakeFlags(rt: nat, fragmented: bool, low: nat): (flags: byte)
    requires rt < 8 && low < 16
    ensures ReliabilityType(flags) == rt
    ensures IsFragmented(flags) == fragmented
    ensures ReservedBits(flags) == low
  {
    32 * rt + (if fragmented then 16 else 0) + low
  }

  /** The three fields cover the whole byte: extracting them and putting them
      back gives the byte again. */
  lemma FlagsDecomposition(flags: byte)
    ensures MakeFlags(ReliabilityType(flags), IsFragmented(flags), ReservedBits(flags)) == flags
  {
  }

  /* Presence predicates, as the codec tests them. */

  predicate HasReliableIndex(rt: nat)
  {
    rt in {2, 3, 4, 6, 7}
  }

  predicate HasSequencedIndex(rt: nat)
  {
    rt in {1, 4}
  }

  predicate HasOrderedIndex(rt: nat)
  {
    rt in {1, 3, 4, 7}
  }

  /** The eight reliability types with their guarantees. */
  datatype Reliability =
    | Unreliable
    | UnreliableSequenced
    | Reliable
    | ReliableOrdered
    | ReliableSequenced
    | UnreliableWithAckReceipt
    | ReliableWithAckReceipt
    | ReliableOrderedWithAckReceipt
  {
    predicate IsReliable()
    {
      Reliable? || ReliableOrdered? || ReliableSequenced? || ReliableWithAckReceipt? || ReliableOrderedWithAckReceipt?
    }

    predicate IsOrdered()
    {
      UnreliableSequenced? || ReliableOrdered? || ReliableSequenced? || ReliableOrderedWithAckReceipt?
    }

    predicate IsSequenced()
    {
      UnreliableSequenced? || ReliableSequenced?
    }

    predicate HasAckReceipt()
    {
      UnreliableWithAckReceipt? || ReliableWithAckReceipt? || ReliableOrderedWithAckReceipt?
    }

    function Code(): (rt: nat)
      ensures rt < 8
    {
      match this
      case Unreliable => 0
      case UnreliableSequenced => 1
      case Reliable => 2
      case ReliableOrdered => 3
      case ReliableSequenced => 4
      case UnreliableWithAckReceipt => 5
      case ReliableWithAckReceipt => 6
      case ReliableOrderedWithAckReceipt => 7
    }
  }

  function ReliabilityOf(rt: nat): (r: Reliability)
    requires rt < 8
    ensures r.Code() == rt
  {
    match rt
    case 0 => Unreliable
    case 1 => UnreliableSequenced
    case 2 => Reliable
    case 3 => ReliableOrdered
    case 4 => ReliableSequenced
    case 5 => UnreliableWithAckReceipt
    case 6 => ReliableWithAckReceipt
    case _ => ReliableOrderedWithAckReceipt
  }

  /** Each optional index is on the wire exactly when the reliability type
      carries the matching guarantee. */
  lemma PresenceMatchesReliability(rt: nat)
    requires rt < 8
    ensures HasReliableIndex(rt) <==> ReliabilityOf(rt).IsReliable()
    ensures HasSequencedIndex(rt) <==> ReliabilityOf(rt).IsSequenced()
    ensures HasOrderedIndex(rt) <==> ReliabilityOf(rt).IsOrdered()
  {
  }

  /** A sequenced frame always carries an ordered index and channel too. */
  lemma SequencedImpliesOrdered(rt: nat)
    ensures HasSequencedIndex(rt) ==> HasOrderedIndex(rt)
  {
  }

  /** The acknowledgement receipt does not change the layout: types 5, 6 and
      7 put exactly the same indices on the wire as types 0, 2 and 3. */
  lemma AckReceiptKeepsLayout(rt: nat)
    requires rt < 8 && ReliabilityOf(rt).HasAckReceipt()
    ensures var base := if rt == 5 then 0 else rt - 4;
      && !ReliabilityOf(base).HasAckReceipt()
      && (HasReliableIndex(rt) <==> HasReliableIndex(base))
      && (HasSequencedIndex(rt) <==> HasSequencedIndex(base))
      && (HasOrderedIndex(rt) <==> HasOrderedIndex(base))
  {
  }
}
