/** The bit streams that the Huffman coder can be handed: a closed sum in place of a trait object. */
module Bitstreams {
  import opened Bits
  import opened DeflateBitstreams
  import opened Bzip2Bitstreams

  datatype Bitstream = OfDeflate(deflate: DeflateBitstream) | OfBzip2(bzip2: Bzip2Bitstream) {

    ghost function Reader(): object {
      match this
      case OfDeflate(d) => d
      case OfBzip2(b) => b
    }

    ghost predicate Valid()
      reads Reader()
    {
      match this
      case OfDeflate(d) => d.Valid()
      case OfBzip2(b) => b.Valid()
    }

    /** The bit sequence that is read. */
    ghost function Source(): seq<Bit>
      requires Valid()
      reads Reader()
    {
      match this
      case OfDeflate(d) => d.Source()
      case OfBzip2(b) => b.Source()
    }

    /** Number of bits read so far. */
    ghost function Position(): nat
      reads Reader()
    {
      match this
      case OfDeflate(d) => d.position
      case OfBzip2(b) => b.position
    }

    ghost function Order(): BitOrder {
      if OfDeflate? then LsbFirst else MsbFirst
    }

    method GetValue(count: nat) returns (value: nat)
      requires Valid() && count <= 32
      modifies Reader()
      ensures Valid() && Source() == old(Source()) && Position() == old(Position()) + count
      ensures value == Value(Order(), Source(), old(Position()), count)
    {
      match this
      case OfDeflate(d) => value := d.GetValue(count);
      case OfBzip2(b) => value := b.GetValue(count);
    }
  }

  /** One bit is the same in either order. */
  lemma OneBit(order: BitOrder, s: seq<Bit>, pos: nat)
    ensures Value(order, s, pos, 1) == At(s, pos)
  {
    assert LsbValue(s, pos + 1, 0) == 0 && MsbValue(s, pos, 0) == 0;
  }
}
