// The table-driven CRC-24Q of the send path, and the proof that it is the remainder of the
// message polynomial times x^24 on division by the generator.
module Crc24q {
  import opened Polynomials
  import opened Words

  // The coefficients of a 24-bit register.
  function Coeffs(c: nat): Rem
  {
    LowBits(c, 24)
  }

  // A byte string as a polynomial.
  function Bits(data: seq<Byte>): (r: Poly)
    ensures |r| == 8 * |data|
  {
    if data == [] then [] else Bits(data[..|data| - 1]) + LowBits(data[|data| - 1], 8)
  }

  // What the checksum is: the remainder of message * x^24.
  function Crc(data: seq<Byte>): Rem
  {
    Remainder(Bits(data) + Zeros(24))
  }

  // The big-endian 24-bit number in three bytes.
  function BigEndian24(a: Byte, b: Byte, c: Byte): nat
  {
    a * 0x10000 + b * 0x100 + c
  }

  lemma {:induction false} BitsAppend(a: seq<Byte>, b: seq<Byte>)
    ensures Bits(a + b) == Bits(a) + Bits(b)
  {
    if b == [] {
      assert a + b == a;
    } else {
      var s := a + b;
      assert s[..|s| - 1] == a + b[..|b| - 1];
      BitsAppend(a, b[..|b| - 1]);
    }
  }

  lemma {:induction false} BitsInjective(a: seq<Byte>, b: seq<Byte>)
    requires |a| == |b| && Bits(a) == Bits(b)
    ensures a == b
  {
    hide LowBits, ShiftRight;
    if a != [] {
      var n := |a| - 1;
      assert Bits(a)[..8 * n] == Bits(a[..n]) && Bits(b)[..8 * n] == Bits(b[..n]);
      assert Bits(a)[8 * n..] == LowBits(a[n], 8) && Bits(b)[8 * n..] == LowBits(b[n], 8);
      BitsInjective(a[..n], b[..n]);
      ShiftRight8(a[n]);
      ShiftRight8(b[n]);
      LowBitsInjective(a[n], b[n], 8);
    }
  }

  lemma TrailerBits(a: Byte, b: Byte, c: Byte)
    ensures Coeffs(BigEndian24(a, b, c)) == Bits([a, b, c])
  {
    hide LowBits, ShiftRight, Bits;
    var w := BigEndian24(a, b, c);
    ThreeBytes(a, b, c);
    assert w / 0x100 == a * 0x100 + b && w % 0x100 == c;
    TopByte(w, 16);
    assert (w / 0x100) / 0x100 == a && (w / 0x100) % 0x100 == b;
    TopByte(w / 0x100, 8);
  }

  lemma ThreeBytes(a: Byte, b: Byte, c: Byte)
    ensures Bits([a, b, c]) == LowBits(a, 8) + LowBits(b, 8) + LowBits(c, 8)
  {
    hide LowBits;
    assert [a, b, c][..2] == [a, b] && [a, b][..1] == [a] && [a][..0] == [];
    assert Bits([]) == [];
    assert Bits([a]) == LowBits(a, 8);
    assert Bits([a, b]) == Bits([a]) + LowBits(b, 8);
  }

  lemma TopByte(w: nat, n: nat)
    ensures LowBits(w, n + 8) == LowBits(w / 0x100, n) + LowBits(w % 0x100, 8)
  {
    hide LowBits, ShiftRight;
    LowBitsSplit(w, n, 8);
    ShiftRight8(w);
    LowBits8(w);
  }

  function Bit(b: bool): nat { if b then 1 else 0 }

  lemma FourLowBits(q: nat, a: bool, b: bool, c: bool, d: bool, n: nat)
    ensures LowBits(16 * q + 8 * Bit(a) + 4 * Bit(b) + 2 * Bit(c) + Bit(d), n + 4) == LowBits(q, n) + [a, b, c, d]
  {
    hide LowBits;
    LowBitsNext(2 * q + Bit(a), n + 1);
    LowBitsNext(4 * q + 2 * Bit(a) + Bit(b), n + 2);
    LowBitsNext(8 * q + 4 * Bit(a) + 2 * Bit(b) + Bit(c), n + 3);
    LowBitsNext(16 * q + 8 * Bit(a) + 4 * Bit(b) + 2 * Bit(c) + Bit(d), n + 4);
  }

  // The generator is the one of the standard: x^24 + x^23 + x^18 + x^17 + x^14 + x^11 + x^10 + x^7 + x^6
  // + x^5 + x^4 + x^3 + x + 1.
  lemma GeneratorCoefficients(e: nat)
    requires e <= 24
    ensures GENERATOR[24 - e] <==> e in {24, 23, 18, 17, 14, 11, 10, 7, 6, 5, 4, 3, 1, 0}
  {
    hide LowBits;
    GeneratorBits();
  }

  lemma GeneratorBits()
    ensures GENERATOR == [true] + [true, false, false, false] + [false, true, true, false]
                         + [false, true, false, false] + [true, true, false, false]
                         + [true, true, true, true] + [true, false, true, true]
  {
    hide LowBits;
    FourLowBits(0x1864CF, true, false, true, true, 21);
    FourLowBits(0x1864C, true, true, true, true, 17);
    FourLowBits(0x1864, true, true, false, false, 13);
    FourLowBits(0x186, false, true, false, false, 9);
    FourLowBits(0x18, false, true, true, false, 5);
    FourLowBits(1, true, false, false, false, 1);
    LowBitsNext(1, 1);
    LowBitsNone(0, 0, 0);
    assert LowBits(1, 1) == [true];
  }

  // --------------------------------------------------------------- the table

  // One iteration of the inner loop of crc24q_build_table.
  lemma ShiftReduceStep(crc: nat, next: nat)
    requires crc < 0x1000000
    requires next == if (2 * crc / 0x1000000) % 2 == 1 then BitXor(2 * crc, CRC24Q_POLY) else 2 * crc
    ensures next < 0x1000000
    ensures Coeffs(next) == BringDown(Coeffs(crc), false)
  {
    var c := 2 * crc;
    var wide := Coeffs(crc) + [false];
    DoubledWord(crc);
    if wide[0] {
      GeneratorEnds();
      LowBitsXor(c, CRC24Q_POLY, 24);
      assert Coeffs(next) == Xor(wide[1..], GENERATOR[1..]);
      ReducedBound(c);
    }
  }

  lemma DoubledWord(crc: nat)
    requires crc < 0x1000000
    ensures var wide := Coeffs(crc) + [false];
            Coeffs(2 * crc) == wide[1..] && wide[0] == (2 * crc / 0x1000000 % 2 == 1)
  {
    hide LowBits, ShiftRight;
    var c := 2 * crc;
    LowBitsNext(c, 25);
    assert c / 2 == crc && c % 2 == 0;
    LowBitsSplit(c, 1, 24);
    ShiftRight24(c);
    var h := c / 0x1000000;
    LowBitsNext(h, 1);
    LowBitsNone(h / 2, h / 2, h / 2);
    assert LowBits(c, 25) == [h % 2 == 1] + LowBits(c, 24);
  }

  lemma ReducedBound(c: nat)
    requires c / 0x1000000 == 1
    ensures BitXor(c, CRC24Q_POLY) < 0x1000000
  {
    GeneratorEnds();
    ShiftRightXor(c, CRC24Q_POLY, 24);
    ShiftRight24(c);
    ShiftRight24(BitXor(c, CRC24Q_POLY));
    assert BitXor(1, 1) == 2 * BitXor(0, 0) + 0 == 0;
  }

  // What every table entry must be.
  predicate TableReady(table: seq<nat>)
  {
    |table| == 256 && forall i :: 0 <= i < 256 ==> EntryReady(i, table[i])
  }

  predicate EntryReady(i: nat, entry: nat)
  {
    entry < 0x1000000 && Coeffs(entry) == Divide(Coeffs(i * 0x10000), Zeros(8))
  }

  // One byte of the table-driven loop.
  lemma TableStep(table: seq<nat>, data: seq<Byte>, b: Byte, crc: nat, next: nat)
    requires TableReady(table)
    requires crc < 0x1000000 && Coeffs(crc) == Crc(data)
    requires next == BitXor((crc * 0x100) % 0x1000000, table[BitXor(crc / 0x10000, b) % 0x100])
    ensures next < 0x1000000 && Coeffs(next) == Crc(data + [b])
  {
    var index := BitXor(crc / 0x10000, b) % 0x100;
    var r := Remainder(Bits(data));
    var top, low := Coeffs(crc)[..8], Coeffs(crc)[8..];
    var byte := LowBits(b, 8);

    // The register half of the update: the low sixteen coefficients move up.
    ShiftedRegister(crc);
    // The table half: what the top byte, summed with the new byte, leaves behind.
    IndexBits(crc, b);
    IndexWord(index);
    LowBitsXor((crc * 0x100) % 0x1000000, table[index], 24);
    assert EntryReady(index, table[index]);
    assert Coeffs(next) == Xor(low + Zeros(8), Divide(Xor(top, byte) + Zeros(16), Zeros(8)));
    ByteStep(Coeffs(crc), byte);
    CrcStep(data, b);
    WordBound((crc * 0x100) % 0x1000000, table[index]);
  }

  lemma WordBound(a: nat, b: nat)
    requires a < 0x1000000 && b < 0x1000000
    ensures BitXor(a, b) < 0x1000000
  {
    ShiftRightXor(a, b, 24);
    ShiftRight24(a);
    ShiftRight24(b);
    ShiftRight24(BitXor(a, b));
  }

  lemma ShiftedRegister(crc: nat)
    ensures Coeffs((crc * 0x100) % 0x1000000) == Coeffs(crc)[8..] + Zeros(8)
  {
    LowBits24(crc * 0x100);
    LowBitsTimes256(crc, 16);
    LowBitsSplit(crc, 8, 16);
  }

  lemma IndexBits(crc: nat, b: Byte)
    requires crc < 0x1000000
    ensures LowBits(BitXor(crc / 0x10000, b) % 0x100, 8) == Xor(Coeffs(crc)[..8], LowBits(b, 8))
  {
    LowBits8(BitXor(crc / 0x10000, b));
    LowBitsXor(crc / 0x10000, b, 8);
    LowBitsSplit(crc, 8, 16);
    ShiftRight16(crc);
  }

  lemma IndexWord(i: nat)
    ensures Coeffs(i * 0x10000) == LowBits(i, 8) + Zeros(16)
  {
    LowBitsTimes256(i * 0x100, 16);
    LowBitsTimes256(i, 8);
    assert Zeros(8) + Zeros(8) == Zeros(16);
  }

  // Splitting the register into its top byte, which reduces, and the rest, which only moves.
  lemma ByteStep(crc: Rem, byte: Poly)
    requires |byte| == 8
    ensures Xor(crc[8..] + Zeros(8), Divide(Xor(crc[..8], byte) + Zeros(16), Zeros(8)))
         == Divide(Xor(crc, byte + Zeros(16)), Zeros(8))
  {
    var rest := Zeros(8) + crc[8..];
    var head := Xor(crc[..8], byte) + Zeros(16);
    DivideIntoZeros(crc[8..], Zeros(8));
    DivideSum(rest, head, Zeros(8), Zeros(8));
    assert Xor(Zeros(8), Zeros(8)) == Zeros(8);
    assert Xor(rest, head) == Xor(crc, byte + Zeros(16));
  }

  lemma CrcStep(data: seq<Byte>, b: Byte)
    ensures Crc(data + [b]) == Divide(Xor(Crc(data), LowBits(b, 8) + Zeros(16)), Zeros(8))
  {
    var r := Remainder(Bits(data));
    var byte := LowBits(b, 8);
    BitsAppend(data, [b]);
    assert [b][..0] == [];
    assert Bits([b]) == byte;
    DivideAppend(Zeros(24), Bits(data), Zeros(24));
    DivideAppend(Zeros(24), Bits(data + [b]), Zeros(24));
    DivideAppend(Zeros(24), Bits(data), byte);
    DivideAppend(r, byte, Zeros(24));
    var p := byte + Zeros(16);
    assert byte + Zeros(24) == p + Zeros(8);
    DivideAppend(r, p, Zeros(8));
    AppendedWindow(r, p);
  }

  lemma DivideZeros(r: Rem, n: nat)
    ensures Divide(r, Zeros(0)) == r
    ensures Divide(r, Zeros(n + 1)) == BringDown(Divide(r, Zeros(n)), false)
  {
    assert Zeros(n + 1)[..n] == Zeros(n);
  }

  // The lookup table with its lazy initialisation flag.
  class Table {
    const entries: array<nat>
    var ready: bool

    ghost predicate Valid()
      reads this, entries
    {
      entries.Length == 256 && (ready ==> TableReady(entries[..]))
    }

    constructor ()
      ensures Valid() && !ready && fresh(entries)
    {
      entries := new nat[256];
      ready := false;
    }

    method Build()
      requires Valid()
      modifies this, entries
      ensures Valid() && ready
    {
      hide Divide, BitXor, LowBits, BringDown;
      for i := 0 to 256
        invariant forall j :: 0 <= j < i ==> EntryReady(j, entries[j])
      {
        var crc := i * 0x10000;
        ghost var filled := entries[..];
        DivideZeros(Coeffs(crc), 0);
        for b := 0 to 8
          invariant entries[..] == filled
          invariant crc < 0x1000000
          invariant Coeffs(crc) == Divide(Coeffs(i * 0x10000), Zeros(b))
        {
          ghost var before := crc;
          crc := 2 * crc;
          if (crc / 0x1000000) % 2 == 1 {
            crc := BitXor(crc, CRC24Q_POLY);
          }
          ShiftReduceStep(before, crc);
          DivideZeros(Coeffs(i * 0x10000), b);
        }
        assert crc % 0x1000000 == crc;
        entries[i] := crc % 0x1000000;
      }
      ready := true;
    }

    // The checksum of the first `len` bytes of a buffer.
    method Checksum(data: array<Byte>, len: nat) returns (crc: nat)
      requires Valid() && len <= data.Length
      modifies if ready then {} else {this, entries}
      ensures Valid() && ready
      ensures old(ready) ==> entries[..] == old(entries[..])
      ensures crc < 0x1000000 && Coeffs(crc) == Crc(data[..len])
    {
      ghost var bytes := data[..len];
      if !ready {
        Build();
      }
      crc := 0;
      EmptyCrc();
      for i := 0 to len
        invariant Valid() && ready
        invariant crc < 0x1000000 && Coeffs(crc) == Crc(data[..i])
      {
        ghost var before := crc;
        assert data[..i + 1] == data[..i] + [data[i]];
        crc := BitXor((crc * 0x100) % 0x1000000, entries[BitXor(crc / 0x10000, data[i]) % 0x100]);
        TableStep(entries[..], data[..i], data[i], before, crc);
      }
    }
  }

  lemma EmptyCrc()
    ensures Coeffs(0) == Crc([])
  {
    LowBitsZero(24);
    assert Bits([]) + Zeros(24) == Zeros(24);
    assert Zeros(24) + [] == Zeros(24) && [] + Zeros(24) == Zeros(24);
    DivideIntoZeros([], Zeros(24));
  }
}
