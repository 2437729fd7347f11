/** The forward, least-significant-bit-first bit buffer of DEFLATE. */
module DeflateBitstreams {
  import opened Words
  import opened Bits
  import opened BitBuffers

  class DeflateBitstream {
    const data: seq<Byte>
    const start: nat
    var dataOffset: nat
    var bits: nat
    var numberOfBits: nat

    /** Number of bits handed out so far. */
    ghost var position: nat

    /** Number of bytes that went into the buffer, padding included. */
    ghost var loaded: nat

    /** The bit sequence this reader stands for. */
    ghost function Source(): seq<Bit> {
      BitsOf(LsbFirst, Payload())
    }

    /** The bytes that this reader reads. */
    ghost function Payload(): seq<Byte> {
      if start <= |data| then data[start..] else []
    }

    /** The buffer holds the bits that follow the ones handed out, up to a byte boundary of the input. */
    ghost predicate Buffered()
      reads this
    {
      && start <= |data|
      && numberOfBits <= 31
      && position + numberOfBits == 8 * loaded
      && bits == LsbValue(Source(), position, numberOfBits)
      && dataOffset == InputOffset(loaded)
    }

    /** Offset of the next input byte once the given number of bytes went through the buffer. */
    ghost function InputOffset(count: nat): nat {
      if start + count <= |data| then start + count else |data|
    }

    /** Between calls less than a byte is buffered. */
    ghost predicate Valid()
      reads this
    {
      Buffered() && numberOfBits <= 7
    }

    constructor (data: seq<Byte>, dataOffset: nat)
      requires dataOffset <= |data|
      ensures Valid() && position == 0 && numberOfBits == 0
      ensures this.data == data && start == dataOffset && this.dataOffset == dataOffset
    {
      this.data := data;
      this.start := dataOffset;
      this.dataOffset := dataOffset;
      this.bits := 0;
      this.numberOfBits := 0;
      this.position := 0;
      this.loaded := 0;
    }

    /** Between calls the input offset is the number of consumed bits rounded up to bytes. */
    lemma OffsetIsRoundedUp()
      requires Valid()
      ensures dataOffset == InputOffset((position + 7) / 8)
    {
    }

    method ReadData(size: nat)
      requires Buffered() && size <= 24
      modifies this
      ensures Buffered() && position == old(position) && numberOfBits >= size
      ensures numberOfBits == old(numberOfBits) || numberOfBits < size + 8
      ensures old(numberOfBits) >= size ==> numberOfBits == old(numberOfBits)
    {
      hide BitOr, BitAnd, Not32, Shl32, Shl, Shr, Low, Pow2, LsbValue, MsbValue, BitsOf;
      while numberOfBits < size
        invariant Buffered() && position == old(position)
        invariant numberOfBits == old(numberOfBits) || (old(numberOfBits) < size && numberOfBits < size + 8)
        decreases size + 8 - numberOfBits
      {
        InputByte(data[start..], loaded);
        if dataOffset < |data| {
          RefillLsb(Source(), position, numberOfBits, data[dataOffset]);
          bits := BitOr(bits, Shl32(data[dataOffset], numberOfBits));
          dataOffset := dataOffset + 1;
        } else {
          RefillLsb(Source(), position, numberOfBits, 0);
        }
        numberOfBits := numberOfBits + 8;
        loaded := loaded + 1;
      }
    }

    /** Takes one chunk of at most 24 bits out of the buffer. */
    method TakeChunk(size: nat) returns (value: nat)
      requires Valid() && size <= 24
      modifies this
      ensures Valid() && position == old(position) + size
      ensures value == LsbValue(Source(), old(position), size)
    {
      hide BitOr, BitAnd, Not32, Shl32, Shl, Shr, Low, Pow2, LsbValue, MsbValue, BitsOf;
      if numberOfBits < size {
        ReadData(size);
      }
      TakeLsb(Source(), position, numberOfBits, size);
      value := BitAnd(bits, Not32(Shl32(U32_MAX, size)));
      bits := Shr(bits, size);
      numberOfBits := numberOfBits - size;
      position := position + size;
    }

    method GetValue(count: nat) returns (value: nat)
      requires Valid() && count <= 32
      modifies this
      ensures Valid() && position == old(position) + count
      ensures value == LsbValue(Source(), old(position), count)
    {
      hide BitOr, BitAnd, Not32, Shl32, Shl, Shr, Low, Pow2, LsbValue, MsbValue, BitsOf;
      value := 0;
      var bitOffset := 0;
      EmptyValue(Source(), position);
      while bitOffset < count
        invariant Valid() && bitOffset <= count && position == old(position) + bitOffset
        invariant value == LsbValue(Source(), old(position), bitOffset)
      {
        var readSize := count - bitOffset;
        if readSize > 24 {
          readSize := 24;
        }
        var chunk := TakeChunk(readSize);
        AppendLsb(Source(), old(position), bitOffset, readSize);
        if bitOffset > 0 {
          chunk := Shl32(chunk, bitOffset);
        } else {
          OrZero(chunk);
        }
        value := BitOr(value, chunk);
        bitOffset := bitOffset + readSize;
      }
    }

    method SkipBits(count: nat)
      requires Valid() && count <= 32
      modifies this
      ensures Valid() && position == old(position) + count
    {
      hide BitOr, BitAnd, Not32, Shl32, Shl, Shr, Low, Pow2, LsbValue, MsbValue, BitsOf;
      var bitOffset := 0;
      EmptyValue(Source(), position);
      while bitOffset < count
        invariant Valid() && bitOffset <= count && position == old(position) + bitOffset
      {
        var readSize := count - bitOffset;
        if readSize > 24 {
          readSize := 24;
        }
        if numberOfBits < readSize {
          ReadData(readSize);
        }
        TakeLsb(Source(), position, numberOfBits, readSize);
        bits := Shr(bits, readSize);
        numberOfBits := numberOfBits - readSize;
        position := position + readSize;
        bitOffset := bitOffset + readSize;
      }
    }

    /**
     * Copies whole bytes and flushes the buffer; the flush only skips the bits of the byte that was
     * already started, so nothing is lost when the buffer is empty.
     */
    method CopyBytes(readSize: nat, output: array<Byte>, outputOffset: nat) returns (ok: bool)
      requires Valid()
      modifies this, output
      ensures Valid()
      ensures ok <==> old(dataOffset) + readSize <= |data| && outputOffset + readSize <= output.Length
      ensures !ok ==> output[..] == old(output[..]) && position == old(position)
      ensures ok ==> position == old(position) + old(numberOfBits) + 8 * readSize && numberOfBits == 0
      ensures ok ==> output[..] == old(output[..outputOffset]) + data[old(dataOffset)..old(dataOffset) + readSize]
                                   + old(output[outputOffset + readSize..])
    {
      hide BitOr, BitAnd, Not32, Shl32, Shl, Shr, Low, Pow2, LsbValue, MsbValue, BitsOf;
      var dataEndOffset := dataOffset + readSize;
      if dataEndOffset > |data| {
        return false;
      }
      if outputOffset + readSize > output.Length {
        return false;
      }
      EmptyValue(Source(), position + numberOfBits + 8 * readSize);
      forall i | 0 <= i < readSize {
        output[outputOffset + i] := data[dataOffset + i];
      }
      position := position + numberOfBits + 8 * readSize;
      loaded := loaded + readSize;
      dataOffset := dataEndOffset;
      bits := 0;
      numberOfBits := 0;
      ok := true;
    }

    /** Gives buffered whole bytes back to the input; between calls there never are any. */
    method UnreadData()
      requires Buffered() && numberOfBits <= 8 * dataOffset + 8
      modifies this
      ensures numberOfBits <= 8
      ensures old(Valid()) ==> Valid() && position == old(position) && dataOffset == old(dataOffset)
      ensures old(Valid()) ==> bits == old(bits) && numberOfBits == old(numberOfBits)
    {
      hide BitOr, BitAnd, Not32, Shl32, Shl, Shr, Low, Pow2, LsbValue, MsbValue, BitsOf;
      while numberOfBits > 8
        invariant position == old(position) && loaded == old(loaded)
        invariant numberOfBits <= 8 * dataOffset + 8
        invariant old(numberOfBits) <= 8 ==>
            dataOffset == old(dataOffset) && bits == old(bits) && numberOfBits == old(numberOfBits)
        decreases numberOfBits
      {
        bits := Shr(bits, 8);
        numberOfBits := numberOfBits - 8;
        dataOffset := dataOffset - 1;
      }
    }
  }
}
