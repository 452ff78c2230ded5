/** The CRC-8 checksum the SHT3x sensor appends to every 2-byte data word:
    polynomial 0x31, seed 0xFF, most significant bit first, no reflection,
    no final XOR. */
module Checksum {

  const Polynomial: bv8 := 0x31
  const Seed: bv8 := 0xFF

  /** One step of the bitwise division: shift left by one and, when the bit
      shifted out was set, XOR in the polynomial. `c << 1` on a `bv8` drops
      the top bit, which is what the assignment back to `uint8_t` does. */
  function ShiftStep(c: bv8): (r: bv8)
    ensures UnshiftStep(r) == c
    ensures (r & 1 == 1) <==> (c & 0x80 != 0)
  {
    if c & 0x80 != 0 then (c << 1) ^ Polynomial else c << 1
  }

  /** The inverse of ShiftStep: the low bit of a step's result tells whether
      the polynomial was XORed in, which recovers the bit shifted out. */
  function UnshiftStep(r: bv8): bv8 {
    if r & 1 == 1 then ((r ^ Polynomial) >> 1) | 0x80 else r >> 1
  }

  /** `n` shift steps applied to `c`. */
  function Shifts(c: bv8, n: nat): bv8 {
    if n == 0 then c else ShiftStep(Shifts(c, n - 1))
  }

  /** Bits in a byte: the number of shift steps per absorbed byte. */
  const ByteBits: nat := 8

  /** The eight shift steps that absorb one byte. */
  function Step8(c: bv8): bv8 {
    Shifts(c, ByteBits)
  }

  /** CRC state after absorbing `data`, starting from state `c`: a left fold
      that XORs each byte into the state and then runs eight shift steps. */
  function CrcFrom(c: bv8, data: seq<bv8>): bv8
    decreases |data|
  {
    if data == [] then c else CrcFrom(Step8(c ^ data[0]), data[1..])
  }

  /** The checksum of `data`. */
  function Crc8(data: seq<bv8>): bv8 {
    CrcFrom(Seed, data)
  }

  /** The checksum of no bytes is the seed. */
  lemma Crc8Empty()
    ensures Crc8([]) == 0xFF
  {
  }

  /** The checksum of n+1 bytes is eight shift steps applied to the
      checksum of the first n bytes XOR the last byte. */
  lemma {:induction false} CrcSnoc(c: bv8, data: seq<bv8>, b: bv8)
    ensures CrcFrom(c, data + [b]) == Step8(CrcFrom(c, data) ^ b)
    decreases |data|
  {
    if data == [] {
      assert [b][1..] == [];
    } else {
      assert (data + [b])[1..] == data[1..] + [b];
      CrcSnoc(Step8(c ^ data[0]), data[1..], b);
    }
  }

  /** Absorbing `p + q` is absorbing `p` and then `q`. */
  lemma {:induction false} CrcConcat(c: bv8, p: seq<bv8>, q: seq<bv8>)
    ensures CrcFrom(c, p + q) == CrcFrom(CrcFrom(c, p), q)
    decreases |p|
  {
    if p == [] {
      assert p + q == q;
    } else {
      assert (p + q)[1..] == p[1..] + q;
      CrcConcat(Step8(c ^ p[0]), p[1..], q);
    }
  }

  /** Shift steps never lose information. */
  lemma {:induction false} ShiftsInjective(a: bv8, b: bv8, n: nat)
    ensures Shifts(a, n) == Shifts(b, n) ==> a == b
  {
    if n > 0 {
      var pa, pb := Shifts(a, n - 1), Shifts(b, n - 1);
      assert ShiftStep(pa) == ShiftStep(pb) ==> pa == pb by {
        assert UnshiftStep(ShiftStep(pa)) == pa;
        assert UnshiftStep(ShiftStep(pb)) == pb;
      }
      ShiftsInjective(a, b, n - 1);
    }
  }

  /** Zero stays zero: the polynomial is only XORed in when a set bit is
      shifted out. */
  lemma {:induction false} ShiftsZero(n: nat)
    ensures Shifts(0, n) == 0
  {
    if n > 0 {
      ShiftsZero(n - 1);
    }
  }

  /** Two different states stay different whatever bytes follow. */
  lemma {:induction false} CrcFromInjective(a: bv8, b: bv8, data: seq<bv8>)
    ensures CrcFrom(a, data) == CrcFrom(b, data) ==> a == b
    decreases |data|
  {
    if data != [] {
      CrcFromInjective(Step8(a ^ data[0]), Step8(b ^ data[0]), data[1..]);
      ShiftsInjective(a ^ data[0], b ^ data[0], ByteBits);
    }
  }

  /** A check byte is right exactly when the checksum over the data followed
      by that byte is zero. */
  lemma CheckByteIff(data: seq<bv8>, b: bv8)
    ensures (Crc8(data + [b]) == 0) <==> (b == Crc8(data))
  {
    CrcSnoc(Seed, data, b);
    ShiftsZero(ByteBits);
    ShiftsInjective(Crc8(data) ^ b, 0, ByteBits);
  }

  /** Absorbing two different bytes into the same state gives two
      different states. */
  lemma Step8Separates(s: bv8, x: bv8, y: bv8)
    requires x != y
    ensures Step8(s ^ x) != Step8(s ^ y)
  {
    ShiftsInjective(s ^ x, s ^ y, ByteBits);
  }

  /** Two different last bytes after the same prefix give two different
      states. */
  lemma LastByteSeparates(c: bv8, before: seq<bv8>, x: bv8, y: bv8)
    requires x != y
    ensures CrcFrom(c, before + [x]) != CrcFrom(c, before + [y])
  {
    CrcSnoc(c, before, x);
    CrcSnoc(c, before, y);
    Step8Separates(CrcFrom(c, before), x, y);
  }

  /** Two byte strings that differ in one byte only, with the same bytes
      before and after it, lead to different states. */
  lemma DifferentByteDifferentState(c: bv8, before: seq<bv8>, x: bv8, y: bv8, after: seq<bv8>)
    requires x != y
    ensures CrcFrom(c, before + [x] + after) != CrcFrom(c, before + [y] + after)
  {
    var px, py := before + [x], before + [y];
    CrcConcat(c, px, after);
    CrcConcat(c, py, after);
    LastByteSeparates(c, before, x, y);
    CrcFromInjective(CrcFrom(c, px), CrcFrom(c, py), after);
  }

  /** Changing any single byte of the data changes its checksum, so every
      single-byte corruption of a data word is detected. */
  lemma SingleByteErrorDetected(data: seq<bv8>, k: nat, b: bv8)
    requires k < |data|
    requires b != data[k]
    ensures Crc8(data[k := b]) != Crc8(data)
  {
    var before, after := data[..k], data[k + 1..];
    assert data == before + [data[k]] + after;
    assert data[k := b] == before + [b] + after;
    DifferentByteDifferentState(Seed, before, b, data[k], after);
  }

  /** Eight shift steps written out, for evaluating the checksum of
      concrete bytes. */
  lemma Step8Unrolled(c: bv8)
    ensures Step8(c) == ShiftStep(ShiftStep(ShiftStep(ShiftStep(
                          ShiftStep(ShiftStep(ShiftStep(ShiftStep(c))))))))
  {
    assert Shifts(c, 1) == ShiftStep(c);
    assert Shifts(c, 2) == ShiftStep(Shifts(c, 1));
    assert Shifts(c, 3) == ShiftStep(Shifts(c, 2));
    assert Shifts(c, 4) == ShiftStep(Shifts(c, 3));
    assert Shifts(c, 5) == ShiftStep(Shifts(c, 4));
    assert Shifts(c, 6) == ShiftStep(Shifts(c, 5));
    assert Shifts(c, 7) == ShiftStep(Shifts(c, 6));
    assert Shifts(c, 8) == ShiftStep(Shifts(c, 7));
  }

  /** The datasheet's worked example: the checksum of 0xBE 0xEF is 0x92. */
  lemma DatasheetExample()
    ensures Crc8([0xBE, 0xEF]) == 0x92
  {
    Step8Unrolled(0x41);
    Step8Unrolled(0xE3);
    assert Crc8([0xBE, 0xEF]) == CrcFrom(Step8(0x41), [0xEF]);
    assert Step8(0x41) == 0x0C;
    assert CrcFrom(0x0C, [0xEF]) == Step8(0xE3);
  }

  /** A single byte 0xBE alone has checksum 0x0C; 0x92 is the checksum of
      the two-byte word 0xBEEF. */
  lemma SingleByteExample()
    ensures Crc8([0xBE]) == 0x0C
  {
    Step8Unrolled(0x41);
    assert Crc8([0xBE]) == CrcFrom(Step8(0x41), []);
  }

  /** The checksum of `len` bytes of `data` from index `start`, computed as
      the driver does: XOR the next byte into the state, run eight shift
      steps, and count both loops down to zero. */
  method ComputeCrc8(data: array<bv8>, start: nat, len: nat) returns (crc: bv8)
    requires start + len <= data.Length
    ensures crc == Crc8(data[start..start + len])
  {
    crc := Seed;
    var p := start;
    var j := len;
    while j != 0
      invariant 0 <= j <= len && p == start + (len - j)
      invariant crc == Crc8(data[start..p])
    {
      ghost var before := crc;
      crc := crc ^ data[p];
      ghost var mixed := crc;
      var i := ByteBits;
      while i != 0
        invariant 0 <= i <= ByteBits
        invariant crc == Shifts(mixed, ByteBits - i)
      {
        crc := if crc & 0x80 != 0 then (crc << 1) ^ Polynomial else crc << 1;
        i := i - 1;
      }
      CrcSnoc(Seed, data[start..p], data[p]);
      assert data[start..p + 1] == data[start..p] + [data[p]];
      p := p + 1;
      j := j - 1;
    }
  }
}
