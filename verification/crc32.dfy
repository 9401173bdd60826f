// The checksum of the diagnostic archive.
module Crc32 {
  import opened Results

  const POLYNOMIAL: bv32 := 0xedb8_8320
  const START: bv32 := 0xffff_ffff
  const BITS: nat := 8

  // One bit of the register.
  function Shift(crc: bv32): bv32 {
    if crc & 1 == 1 then (crc >> 1) ^ POLYNOMIAL else crc >> 1
  }

  function Iterate<T>(f: T -> T, x: T, n: nat): T {
    if n == 0 then x else f(Iterate(f, x, n - 1))
  }

  function EightShifts(crc: bv32): bv32 {
    Iterate(Shift, crc, BITS)
  }

  function WithByte(crc: bv32, byte: bv8): bv32 {
    crc ^ (byte as bv32)
  }

  // The register after all bytes, bit by bit.
  function Register(bytes: seq<bv8>): bv32 {
    if bytes == [] then START
    else EightShifts(WithByte(Register(bytes[..|bytes| - 1]), bytes[|bytes| - 1]))
  }

  function Checksum(bytes: seq<bv8>): bv32 {
    !Register(bytes)
  }

  method ShiftByte(start: bv32) returns (crc: bv32)
    ensures crc == EightShifts(start)
  {
    crc := start;
    for k := 0 to BITS
      invariant crc == Iterate(Shift, start, k)
    {
      crc := if crc & 1 == 1 then (crc >> 1) ^ POLYNOMIAL else crc >> 1;
    }
  }

  method ComputeChecksum(bytes: seq<bv8>) returns (checksum: bv32)
    ensures checksum == Checksum(bytes)
  {
    var crc := START;
    for i := 0 to |bytes|
      invariant crc == Register(bytes[..i])
    {
      crc := WithByte(crc, bytes[i]);
      crc := ShiftByte(crc);
      assert bytes[..i + 1][..i] == bytes[..i];
    }
    assert bytes[..|bytes|] == bytes;
    checksum := !crc;
  }

  // ---- the table-driven form, section 8 of RFC 1952 ----

  function TableEntry(n: bv32): bv32 {
    EightShifts(n)
  }

  function Lookup(crc: bv32, byte: bv8): bv32 {
    TableEntry(WithByte(crc, byte) & 0xff) ^ (crc >> 8)
  }

  function TableRegister(bytes: seq<bv8>): bv32 {
    if bytes == [] then START
    else Lookup(TableRegister(bytes[..|bytes| - 1]), bytes[|bytes| - 1])
  }

  function TableChecksum(bytes: seq<bv8>): bv32 {
    TableRegister(bytes) ^ 0xffff_ffff
  }

  // Facts about single words.
  lemma XorShift(a: bv32, b: bv32)
    ensures (a ^ b) >> 1 == (a >> 1) ^ (b >> 1)
  {
  }

  lemma LowBit(a: bv32, b: bv32)
    ensures (a ^ b) & 1 == (a & 1) ^ (b & 1)
    ensures a & 1 == 0 || a & 1 == 1
  {
  }

  lemma XorLaws(a: bv32, b: bv32, p: bv32)
    ensures (a ^ p) ^ (b ^ p) == a ^ b && (a ^ p) ^ b == (a ^ b) ^ p && a ^ (b ^ p) == (a ^ b) ^ p
  {
  }

  lemma ShiftMeaning(x: bv32)
    ensures x & 1 == 0 ==> Shift(x) == x >> 1
    ensures x & 1 == 1 ==> Shift(x) == (x >> 1) ^ POLYNOMIAL
  {
  }

  lemma ShiftIsLinear(a: bv32, b: bv32)
    ensures Shift(a ^ b) == Shift(a) ^ Shift(b)
  {
    XorShift(a, b);
    LowBit(a, b);
    LowBit(b, a);
    ShiftMeaning(a);
    ShiftMeaning(b);
    ShiftMeaning(a ^ b);
    XorLaws(a >> 1, b >> 1, POLYNOMIAL);
  }

  function Xor(a: bv32, b: bv32): bv32 {
    a ^ b
  }

  // What the eight shifts need to know of one: it respects exclusive or, and
  // halves a word whose low bit is clear.
  ghost predicate Linear(f: bv32 -> bv32) {
    forall a, b :: f(Xor(a, b)) == Xor(f(a), f(b))
  }

  ghost predicate Halves(f: bv32 -> bv32) {
    forall w :: w & 1 == 0 ==> f(w) == w >> 1
  }

  lemma ShiftIsLinearAndHalves()
    ensures Linear(Shift) && Halves(Shift)
  {
    forall a, b ensures Shift(Xor(a, b)) == Xor(Shift(a), Shift(b)) {
      ShiftIsLinear(a, b);
    }
  }

  lemma {:induction false} IterateIsLinear(f: bv32 -> bv32, a: bv32, b: bv32, n: nat)
    requires Linear(f)
    ensures Iterate(f, Xor(a, b), n) == Xor(Iterate(f, a, n), Iterate(f, b, n))
  {
    if n > 0 {
      IterateIsLinear(f, a, b, n - 1);
    }
  }

  // Words whose low byte is clear, with their first n bits shifted out.
  lemma HighBits(x: bv32)
    requires x & 0xff == 0
    ensures x & 1 == 0 && (x >> 1) & 1 == 0 && (x >> 2) & 1 == 0 && (x >> 3) & 1 == 0
    ensures (x >> 4) & 1 == 0 && (x >> 5) & 1 == 0 && (x >> 6) & 1 == 0 && (x >> 7) & 1 == 0
    ensures (x >> 1) >> 1 == x >> 2 && (x >> 2) >> 1 == x >> 3 && (x >> 3) >> 1 == x >> 4 && (x >> 4) >> 1 == x >> 5
    ensures (x >> 5) >> 1 == x >> 6 && (x >> 6) >> 1 == x >> 7 && (x >> 7) >> 1 == x >> 8
  {
  }

  // Shifting out zeros never brings in the polynomial.
  lemma IterateOnHigh(f: bv32 -> bv32, x: bv32)
    requires Halves(f) && x & 0xff == 0
    ensures Iterate(f, x, BITS) == x >> 8
  {
    HighBits(x);
    assert Iterate(f, x, 1) == x >> 1;
    assert Iterate(f, x, 2) == x >> 2;
    assert Iterate(f, x, 3) == x >> 3;
    assert Iterate(f, x, 4) == x >> 4;
    assert Iterate(f, x, 5) == x >> 5;
    assert Iterate(f, x, 6) == x >> 6;
    assert Iterate(f, x, 7) == x >> 7;
  }

  lemma HighPart(x: bv32)
    ensures x == Xor(x & 0xff, x & 0xffff_ff00)
    ensures (x & 0xffff_ff00) & 0xff == 0 && (x & 0xffff_ff00) >> 8 == x >> 8
  {
  }

  lemma IterateOfXor(f: bv32 -> bv32, low: bv32, high: bv32, x: bv32, rest: bv32)
    requires Linear(f) && x == Xor(low, high) && Iterate(f, high, BITS) == rest
    ensures Iterate(f, x, BITS) == Xor(Iterate(f, low, BITS), rest)
  {
    IterateIsLinear(f, low, high, BITS);
  }

  lemma IterateByParts(f: bv32 -> bv32, x: bv32)
    requires Linear(f) && Halves(f)
    ensures Iterate(f, x, BITS) == Xor(Iterate(f, x & 0xff, BITS), x >> 8)
  {
    HighPart(x);
    IterateOnHigh(f, x & 0xffff_ff00);
    IterateOfXor(f, x & 0xff, x & 0xffff_ff00, x, x >> 8);
  }

  lemma ByteIsLow(crc: bv32, byte: bv8)
    ensures WithByte(crc, byte) >> 8 == crc >> 8
  {
  }

  lemma IterateIsLookup(f: bv32 -> bv32, crc: bv32, byte: bv8)
    requires Linear(f) && Halves(f)
    ensures Iterate(f, WithByte(crc, byte), BITS) == Iterate(f, WithByte(crc, byte) & 0xff, BITS) ^ (crc >> 8)
  {
    ByteIsLow(crc, byte);
    IterateByParts(f, WithByte(crc, byte));
  }

  // Eight shifts are one table lookup.
  lemma ShiftsAreLookup(crc: bv32, byte: bv8)
    ensures EightShifts(WithByte(crc, byte)) == Lookup(crc, byte)
  {
    ShiftIsLinearAndHalves();
    IterateIsLookup(Shift, crc, byte);
  }

  lemma {:induction false} RegistersAgree(bytes: seq<bv8>)
    ensures Register(bytes) == TableRegister(bytes)
  {
    if bytes != [] {
      RegistersAgree(bytes[..|bytes| - 1]);
      ShiftsAreLookup(Register(bytes[..|bytes| - 1]), bytes[|bytes| - 1]);
    }
  }

  // For every byte string, the loop over bits is the form over the table.
  lemma BitwiseIsTableDriven(bytes: seq<bv8>)
    ensures Checksum(bytes) == TableChecksum(bytes)
  {
    RegistersAgree(bytes);
    ComplementIsXor(Register(bytes));
  }

  lemma ComplementIsXor(x: bv32)
    ensures !x == x ^ 0xffff_ffff
  {
  }

  // ---- checksums as numbers, of bytes as numbers ----

  function Octets(bytes: seq<Byte>): seq<bv8> {
    seq(|bytes|, i requires 0 <= i < |bytes| => bytes[i] as bv8)
  }

  function ChecksumNumber(bytes: seq<Byte>): (n: nat)
    ensures n < 0x1_0000_0000
  {
    Checksum(Octets(bytes)) as nat
  }

  function TableChecksumNumber(bytes: seq<Byte>): nat {
    TableChecksum(Octets(bytes)) as nat
  }

  method ComputeChecksumNumber(bytes: seq<Byte>) returns (n: nat)
    ensures n == ChecksumNumber(bytes)
  {
    var checksum := ComputeChecksum(Octets(bytes));
    n := checksum as nat;
  }

  lemma NumbersAgree(bytes: seq<Byte>)
    ensures ChecksumNumber(bytes) == TableChecksumNumber(bytes)
  {
    BitwiseIsTableDriven(Octets(bytes));
  }
}
