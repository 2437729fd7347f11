/** The backward, most-significant-bit-first bit buffer of LZFSE. */
module LzfseBitstreams {
  import opened Words
  import opened Bits
  import opened BitBuffers

  /** Reading backwards is reading the reversed bytes forwards. */
  function Reverse(s: seq<Byte>): (r: seq<Byte>)
    ensures |r| == |s|
    ensures forall i :: 0 <= i < |s| ==> r[i] == s[|s| - 1 - i]
  {
    seq(|s|, i requires 0 <= i < |s| => s[|s| - 1 - i])
  }

  class LzfseBitstream {
    const data: seq<Byte>
    const start: nat
    var dataOffset: nat
    var bits: nat
    var numberOfBits: nat

    /** Number of bits handed out so far. */
    ghost var position: nat

    /** Number of bytes that went into the buffer, padding included. */
    ghost var loaded: nat

    /** The bit sequence this reader stands for. */
    ghost function Source(): seq<Bit> {
      if start <= |data| then BitsOf(MsbFirst, Reverse(data[..start])) else []
    }

    /** The buffer holds the bits that follow the ones handed out, up to a byte boundary of the input. */
    ghost predicate Buffered()
      reads this
    {
      && start <= |data|
      && numberOfBits <= 31
      && position + numberOfBits == 8 * loaded
      && bits == MsbValue(Source(), position, numberOfBits)
      && dataOffset == InputOffset(loaded)
    }

    /** Input bytes are taken downwards from the start offset; this is where the next one ends. */
    ghost function InputOffset(count: nat): nat {
      if count <= start then start - count else 0
    }

    /** Between calls less than a byte is buffered. */
    ghost predicate Valid()
      reads this
    {
      Buffered() && numberOfBits <= 7
    }

    constructor (data: seq<Byte>, dataOffset: nat)
      requires dataOffset <= |data|
      ensures Valid() && position == 0 && numberOfBits == 0
      ensures this.data == data && start == dataOffset && this.dataOffset == dataOffset
    {
      this.data := data;
      this.start := dataOffset;
      this.dataOffset := dataOffset;
      this.bits := 0;
      this.numberOfBits := 0;
      this.position := 0;
      this.loaded := 0;
    }

    method ReadData(size: nat)
      requires Buffered() && size <= 24
      modifies this
      ensures Buffered() && position == old(position) && numberOfBits >= size
      ensures numberOfBits == old(numberOfBits) || numberOfBits < size + 8
      ensures old(numberOfBits) >= size ==> numberOfBits == old(numberOfBits)
    {
      hide BitOr, BitAnd, Not32, Shl32, Shl, Shr, Low, Pow2, LsbValue, MsbValue, BitsOf;
      while size > numberOfBits
        invariant Buffered() && position == old(position)
        invariant numberOfBits == old(numberOfBits) || (old(numberOfBits) < size && numberOfBits < size + 8)
        decreases size + 8 - numberOfBits
      {
        InputByte(Reverse(data[..start]), loaded);
        if dataOffset > 0 {
          dataOffset := dataOffset - 1;
          RefillMsb(Source(), position, numberOfBits, data[dataOffset]);
          bits := BitOr(Shl32(bits, 8), data[dataOffset]);
        } else {
          RefillMsb(Source(), position, numberOfBits, 0);
          bits := Shl32(bits, 8);
        }
        numberOfBits := numberOfBits + 8;
        loaded := loaded + 1;
      }
    }

    /** Takes one chunk of at most 24 bits out of the buffer. */
    method TakeChunk(size: nat) returns (value: nat)
      requires Valid() && size <= 24
      modifies this
      ensures Valid() && position == old(position) + size
      ensures value == MsbValue(Source(), old(position), size)
    {
      hide BitOr, BitAnd, Not32, Shl32, Shl, Shr, Low, Pow2, LsbValue, MsbValue, BitsOf;
      if numberOfBits < size {
        ReadData(size);
      }
      value := bits;
      EmptyValue(Source(), position + size);
      if size < numberOfBits {
        TakeMsb(Source(), position, numberOfBits, size);
      }
      numberOfBits := numberOfBits - size;
      position := position + size;
      if numberOfBits == 0 {
        bits := 0;
      } else {
        bits := BitAnd(bits, Shr(U32_MAX, 32 - numberOfBits));
        value := Shr(value, numberOfBits);
      }
    }

    method GetValue(count: nat) returns (value: nat)
      requires Valid() && count <= 32
      modifies this
      ensures Valid() && position == old(position) + count
      ensures value == MsbValue(Source(), old(position), count)
    {
      hide BitOr, BitAnd, Not32, Shl32, Shl, Shr, Low, Pow2, LsbValue, MsbValue, BitsOf;
      value := 0;
      var bitOffset := 0;
      EmptyValue(Source(), position);
      while bitOffset < count
        invariant Valid() && bitOffset <= count && position == old(position) + bitOffset
        invariant value == MsbValue(Source(), old(position), bitOffset)
      {
        var readSize := count - bitOffset;
        if readSize > 24 {
          readSize := 24;
        }
        var chunk := TakeChunk(readSize);
        AppendMsb(Source(), old(position), bitOffset, readSize);
        if bitOffset > 0 {
          value := Shl32(value, readSize);
        } else {
          OrZero(chunk);
        }
        value := BitOr(value, chunk);
        bitOffset := bitOffset + readSize;
      }
    }

    method SkipBits(count: nat)
      requires Valid() && count <= 32
      modifies this
      ensures Valid() && position == old(position) + count
    {
      hide BitOr, BitAnd, Not32, Shl32, Shl, Shr, Low, Pow2, LsbValue, MsbValue, BitsOf;
      var bitOffset := 0;
      EmptyValue(Source(), position);
      while bitOffset < count
        invariant Valid() && bitOffset <= count && position == old(position) + bitOffset
      {
        var readSize := count - bitOffset;
        if readSize > 24 {
          readSize := 24;
        }
        if numberOfBits < readSize {
          ReadData(readSize);
        }
        EmptyValue(Source(), position + readSize);
        if readSize < numberOfBits {
          TakeMsb(Source(), position, numberOfBits, readSize);
        }
        numberOfBits := numberOfBits - readSize;
        position := position + readSize;
        if numberOfBits == 0 {
          bits := 0;
        } else {
          bits := BitAnd(bits, Shr(U32_MAX, 32 - numberOfBits));
        }
        bitOffset := bitOffset + readSize;
      }
    }
  }
}
