/** The two CRC-32 contexts: lazily filled lookup tables and running checksums. */
module Crc32Contexts {
  import opened Words
  import opened Crc32
  import opened Crc32Bits

  /** The checksum of data, as a number. */
  function Checksum(polynomial: bv32, initialValue: bv32, data: seq<Byte>): (r: nat)
    ensures r < U32_SIZE
  {
    BitCrc(polynomial, initialValue, data) as nat
  }

  lemma IndexInTable(c: bv32, b: bv8)
    ensures TableIndex(c, b) as nat < 256 && RevTableIndex(c, b) as nat < 256
  {
  }

  class Crc32Context {
    const polynomial: bv32
    const initialValue: bv32
    var checksum: bv32
    const table: array<bv32>
    var tableInitialized: bool

    /** What was fed since the last result. */
    ghost var fed: seq<Byte>

    /** The running checksum is the remainder of everything fed. */
    ghost predicate Valid()
      reads this, table
    {
      && table.Length == 256
      && (tableInitialized ==> Tabulated(256))
      && checksum == Remainder(polynomial, Xor(initialValue, ONES), Octets(fed))
    }

    /** The first n entries hold eight division steps of their index. */
    ghost predicate Tabulated(n: nat)
      reads table
      requires n <= table.Length == 256
    {
      forall i :: 0 <= i < n ==> table[i] == Steps(polynomial, TopByte(i as bv32), 8)
    }

    constructor (polynomial: bv32, initialValue: bv32)
      ensures Valid() && fresh(table)
      ensures this.polynomial == polynomial && this.initialValue == initialValue
      ensures checksum == Xor(initialValue, ONES) && fed == []
    {
      this.polynomial := polynomial;
      this.initialValue := initialValue;
      this.checksum := Xor(initialValue, ONES);
      this.table := new bv32[256];
      this.tableInitialized := false;
      this.fed := [];
    }

    method InitializeTable()
      requires table.Length == 256
      modifies table, this`tableInitialized
      ensures tableInitialized && Tabulated(256)
    {
      hide Step, TopByte;
      for tableIndex: nat := 0 to 256
        invariant Tabulated(tableIndex)
      {
        var entry := TopByte(tableIndex as bv32);
        for k := 0 to 8
          invariant entry == Steps(polynomial, TopByte(tableIndex as bv32), k)
        {
          entry := Step(polynomial, entry);
        }
        table[tableIndex] := entry;
      }
      tableInitialized := true;
    }

    /** The checksum of everything fed since the last result, in whatever pieces; then it starts over. */
    method Finalize() returns (result: bv32)
      requires Valid()
      modifies this`checksum, this`fed
      ensures Valid() && result == BitCrc(polynomial, initialValue, old(fed)) && fed == []
    {
      hide Xor, BitCrc, RevBitCrc, Octet;
      CrcIsBitCrc(polynomial, initialValue, fed);
      result := Xor(checksum, ONES);
      checksum := Xor(initialValue, ONES);
      fed := [];
    }

    /** The loop over the data: with the table it divides like bit-by-bit division. */
    method Divide(data: seq<Byte>) returns (value: bv32)
      requires table.Length == 256 && Tabulated(256)
      ensures value == Remainder(polynomial, checksum, Octets(data))
    {
      hide Xor, Steps, Enter, TableIndex, TopByte, Shl8, Octet;
      value := checksum;
      for i := 0 to |data|
        invariant value == Remainder(polynomial, checksum, Octets(data[..i]))
      {
        var octet := Octet(data[i]);
        assert Octets(data[..i + 1])[..i] == Octets(data[..i]);
        Lookup(polynomial, value, octet);
        IndexInTable(value, octet);
        value := Xor(table[TableIndex(value, octet) as nat], Shl8(value));
      }
      assert data[..|data|] == data;
    }

    method Update(data: seq<Byte>)
      requires Valid()
      modifies this`checksum, this`tableInitialized, this`fed, table
      ensures Valid() && fed == old(fed) + data
    {
      hide Xor, Remainder, Octets;
      if !tableInitialized {
        InitializeTable();
      }
      var value := Divide(data);
      RemainderAppend(polynomial, Xor(initialValue, ONES), Octets(fed), Octets(data));
      OctetsAppend(fed, data);
      checksum := value;
      fed := fed + data;
    }
  }

  class ReversedCrc32Context {
    const polynomial: bv32
    const initialValue: bv32
    var checksum: bv32
    const table: array<bv32>
    var tableInitialized: bool

    /** What was fed since the last result. */
    ghost var fed: seq<Byte>

    /** The running checksum is the remainder of everything fed. */
    ghost predicate Valid()
      reads this, table
    {
      && table.Length == 256
      && (tableInitialized ==> Tabulated(256))
      && checksum == RevRemainder(polynomial, Xor(initialValue, ONES), Octets(fed))
    }

    ghost predicate Tabulated(n: nat)
      reads table
      requires n <= table.Length == 256
    {
      forall i :: 0 <= i < n ==> table[i] == RevSteps(polynomial, i as bv32, 8)
    }

    constructor (polynomial: bv32, initialValue: bv32)
      ensures Valid() && fresh(table)
      ensures this.polynomial == polynomial && this.initialValue == initialValue
      ensures checksum == Xor(initialValue, ONES) && fed == []
    {
      this.polynomial := polynomial;
      this.initialValue := initialValue;
      this.checksum := Xor(initialValue, ONES);
      this.table := new bv32[256];
      this.tableInitialized := false;
      this.fed := [];
    }

    method InitializeTable()
      requires table.Length == 256
      modifies table, this`tableInitialized
      ensures tableInitialized && Tabulated(256)
    {
      hide RevStep;
      for tableIndex: nat := 0 to 256
        invariant Tabulated(tableIndex)
      {
        var entry := tableIndex as bv32;
        for k := 0 to 8
          invariant entry == RevSteps(polynomial, tableIndex as bv32, k)
        {
          entry := RevStep(polynomial, entry);
        }
        table[tableIndex] := entry;
      }
      tableInitialized := true;
    }

    /** The checksum of everything fed since the last result, in whatever pieces; then it starts over. */
    method Finalize() returns (result: bv32)
      requires Valid()
      modifies this`checksum, this`fed
      ensures Valid() && result == RevBitCrc(polynomial, initialValue, old(fed)) && fed == []
    {
      hide Xor, BitCrc, RevBitCrc, Octet;
      CrcIsBitCrc(polynomial, initialValue, fed);
      result := Xor(checksum, ONES);
      checksum := Xor(initialValue, ONES);
      fed := [];
    }

    /** The loop over the data: with the table it divides like bit-by-bit division. */
    method Divide(data: seq<Byte>) returns (value: bv32)
      requires table.Length == 256 && Tabulated(256)
      ensures value == RevRemainder(polynomial, checksum, Octets(data))
    {
      hide Xor, RevSteps, RevEnter, RevTableIndex, Shr8, Octet;
      value := checksum;
      for i := 0 to |data|
        invariant value == RevRemainder(polynomial, checksum, Octets(data[..i]))
      {
        var octet := Octet(data[i]);
        assert Octets(data[..i + 1])[..i] == Octets(data[..i]);
        Lookup(polynomial, value, octet);
        IndexInTable(value, octet);
        value := Xor(table[RevTableIndex(value, octet) as nat], Shr8(value));
      }
      assert data[..|data|] == data;
    }

    method Update(data: seq<Byte>)
      requires Valid()
      modifies this`checksum, this`tableInitialized, this`fed, table
      ensures Valid() && fed == old(fed) + data
    {
      hide Xor, RevRemainder, Octets;
      if !tableInitialized {
        InitializeTable();
      }
      var value := Divide(data);
      RemainderAppend(polynomial, Xor(initialValue, ONES), Octets(fed), Octets(data));
      OctetsAppend(fed, data);
      checksum := value;
      fed := fed + data;
    }
  }
}
