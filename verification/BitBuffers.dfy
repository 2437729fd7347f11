/** Arithmetic of the 32-bit bit buffers: what one refill, one extraction and one 24-bit chunk do. */
module BitBuffers {
  import opened Words
  import opened Bits

  lemma InputByte(data: seq<Byte>, j: nat)
    ensures LsbValue(BitsOf(LsbFirst, data), 8 * j, 8) == if j < |data| then data[j] else 0
    ensures MsbValue(BitsOf(MsbFirst, data), 8 * j, 8) == if j < |data| then data[j] else 0
  {
    ByteIsValue(LsbFirst, data, j);
    ByteIsValue(MsbFirst, data, j);
  }

  lemma EmptyValue(s: seq<Bit>, pos: nat)
    ensures LsbValue(s, pos, 0) == 0 && MsbValue(s, pos, 0) == 0
  {
  }

  // ---- Least significant bit first: new bytes enter above the buffered bits ----

  lemma RefillLsb(s: seq<Bit>, pos: nat, n: nat, byte: Byte)
    requires n <= 24 && LsbValue(s, pos + n, 8) == byte
    ensures BitOr(LsbValue(s, pos, n), Shl32(byte, n)) == LsbValue(s, pos, n + 8)
    ensures byte == 0 ==> LsbValue(s, pos, n + 8) == LsbValue(s, pos, n)
  {
    hide LsbValue, MsbValue, BitOr, BitAnd, Shl, Shr, Low;
    Pow2Table();
    LsbSplit(s, pos, n, 8);
    Shl32Exact(byte, 8, n);
    OrDisjoint(LsbValue(s, pos, n), byte, n);
    ShlZero(n);
  }

  lemma TakeLsb(s: seq<Bit>, pos: nat, n: nat, size: nat)
    requires size <= n && size <= 24
    ensures BitAnd(LsbValue(s, pos, n), Not32(Shl32(U32_MAX, size))) == LsbValue(s, pos, size)
    ensures Shr(LsbValue(s, pos, n), size) == LsbValue(s, pos + size, n - size)
  {
    hide LsbValue, MsbValue, BitOr, BitAnd, Shl, Shr, Low;
    LsbSplit(s, pos, size, n - size);
    LowMask32(size);
    AndMask(LsbValue(s, pos, n), size);
    Split(LsbValue(s, pos + size, n - size), LsbValue(s, pos, size), size);
  }

  lemma AppendLsb(s: seq<Bit>, pos: nat, done: nat, size: nat)
    requires done + size <= 32
    ensures BitOr(LsbValue(s, pos, done), Shl32(LsbValue(s, pos + done, size), done)) == LsbValue(s, pos, done + size)
  {
    hide LsbValue, MsbValue, BitOr, BitAnd, Shl, Shr, Low;
    LsbSplit(s, pos, done, size);
    Shl32Exact(LsbValue(s, pos + done, size), size, done);
    OrDisjoint(LsbValue(s, pos, done), LsbValue(s, pos + done, size), done);
  }

  // ---- Most significant bit first: new bytes enter below the buffered bits ----

  lemma RefillMsb(s: seq<Bit>, pos: nat, n: nat, byte: Byte)
    requires n <= 24 && MsbValue(s, pos + n, 8) == byte
    ensures BitOr(Shl32(MsbValue(s, pos, n), 8), byte) == MsbValue(s, pos, n + 8)
    ensures byte == 0 ==> Shl32(MsbValue(s, pos, n), 8) == MsbValue(s, pos, n + 8)
  {
    hide LsbValue, MsbValue, BitOr, BitAnd, Shl, Shr, Low;
    Pow2Table();
    MsbSplit(s, pos, n, 8);
    Shl32Exact(MsbValue(s, pos, n), n, 8);
    OrDisjoint(byte, MsbValue(s, pos, n), 8);
  }

  lemma TakeMsb(s: seq<Bit>, pos: nat, n: nat, size: nat)
    requires size < n <= 32
    ensures BitAnd(MsbValue(s, pos, n), Shr(U32_MAX, 32 - (n - size))) == MsbValue(s, pos + size, n - size)
    ensures Shr(MsbValue(s, pos, n), n - size) == MsbValue(s, pos, size)
  {
    hide LsbValue, MsbValue, BitOr, BitAnd, Shl, Shr, Low;
    var rest := n - size;
    MsbSplit(s, pos, size, rest);
    HighMask32(rest);
    AndMask(MsbValue(s, pos, n), rest);
    Split(MsbValue(s, pos, size), MsbValue(s, pos + size, rest), rest);
  }

  lemma AppendMsb(s: seq<Bit>, pos: nat, done: nat, size: nat)
    requires done + size <= 32
    ensures BitOr(Shl32(MsbValue(s, pos, done), size), MsbValue(s, pos + done, size)) == MsbValue(s, pos, done + size)
  {
    hide LsbValue, MsbValue, BitOr, BitAnd, Shl, Shr, Low;
    MsbSplit(s, pos, done, size);
    Shl32Exact(MsbValue(s, pos, done), done, size);
    OrDisjoint(MsbValue(s, pos + done, size), MsbValue(s, pos, done), size);
  }
}
