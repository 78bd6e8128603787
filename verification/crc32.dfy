/**
 * The `Crc32` class of ConfigHelper.cs: the reflected CRC-32 of IEEE 802.3
 * (clause 3.2.9), also catalogued as CRC-32/ISO-HDLC: polynomial 0xEDB88320
 * in reflected form, initial value 0xFFFFFFFF, final complement.
 *
 * The `uint` arithmetic of the source is written over bounded naturals (see
 * module `Bits`). The reference definition works bit by bit (`Update`); the
 * static constructor fills a 256-entry table (`BuildTable`) and `Compute`
 * folds the table over the bytes. `Compute` is proved equal to the bitwise
 * definition.
 */
module Crc32 {
  import opened Bits

  /** The reflected generator polynomial. */
  const Polynomial: nat := 0xEDB8_8320

  /** One reflected shift/xor round: `(c & 1) != 0 ? (c >> 1) ^ poly : c >> 1`. */
  function Round(c: nat): nat {
    if c % 2 != 0 then Xor(c / 2, Polynomial) else c / 2
  }

  /** `n` rounds. */
  function Rounds(c: nat, n: nat): nat {
    if n == 0 then c else Round(Rounds(c, n - 1))
  }

  /** Bitwise CRC-32 step: xor the byte into the low bits, then eight rounds. */
  function Update(crc: nat, b: byte): nat {
    Rounds(Xor(crc, b), 8)
  }

  /** The register after feeding `bytes`, starting from 0xFFFFFFFF. */
  function Register(bytes: seq<byte>): (r: nat)
    ensures r < 0x1_0000_0000
  {
    if bytes == [] then 0xFFFF_FFFF
    else
      var prev := Register(bytes[..|bytes| - 1]);
      UpdateBound(prev, bytes[|bytes| - 1]);
      Update(prev, bytes[|bytes| - 1])
  }

  /** The checksum: the complemented register. */
  function Checksum(bytes: seq<byte>): u32 {
    0xFFFF_FFFF - Register(bytes)
  }

  /** A round keeps a 32-bit register within 32 bits. */
  lemma RoundBound(c: nat)
    requires c < 0x1_0000_0000
    ensures Round(c) < 0x1_0000_0000
  {
    Pow2Of32();
    XorBound(c / 2, Polynomial, 32);
  }

  lemma {:induction false} RoundsBound(c: nat, n: nat)
    requires c < 0x1_0000_0000
    ensures Rounds(c, n) < 0x1_0000_0000
  {
    if n > 0 {
      RoundsBound(c, n - 1);
      RoundBound(Rounds(c, n - 1));
    }
  }

  lemma UpdateBound(crc: nat, b: byte)
    requires crc < 0x1_0000_0000
    ensures Update(crc, b) < 0x1_0000_0000
  {
    Pow2Of32();
    XorBound(crc, b, 32);
    RoundsBound(Xor(crc, b), 8);
  }

  /** `Table[i]`: eight rounds applied to `i`. */
  function TableEntry(i: byte): (e: u32)
  {
    RoundsBound(i, 8);
    Rounds(i, 8)
  }

  ghost predicate IsCrcTable(table: array<u32>)
    reads table
  {
    table.Length == 256 && forall i: byte :: table[i] == TableEntry(i)
  }

  /** The static constructor: fills the table with two nested loops. */
  method BuildTable() returns (table: array<u32>)
    ensures IsCrcTable(table)
  {
    table := new u32[256];
    var i := 0;
    while i < 256
      invariant 0 <= i <= 256
      invariant forall k: byte | k < i :: table[k] == TableEntry(k)
    {
      var crc: u32 := i;
      var j := 0;
      while j < 8
        invariant 0 <= j <= 8
        invariant crc == Rounds(i, j)
        invariant forall k: byte | k < i :: table[k] == TableEntry(k)
      {
        RoundBound(crc);
        crc := if crc % 2 != 0 then Xor(crc / 2, 0xEDB8_8320) else crc / 2;
        j := j + 1;
      }
      table[i] := crc;
      assert table[i] == TableEntry(i);
      i := i + 1;
    }
  }

  /** Xor-ing an even value `2m` into the register before a round is the same
      as xor-ing `m` in after it: the low bit decides the same way, and the
      polynomial is xor-ed in either way. */
  lemma RoundShift(l: nat, m: nat)
    ensures Round(Xor(l, 2 * m)) == Xor(Round(l), m)
  {
    XorHalves(l, 2 * m);
    if l % 2 != 0 {
      calc {
        Round(Xor(l, 2 * m));
        Xor(Xor(l / 2, m), Polynomial);
        { XorAssoc(l / 2, m, Polynomial); XorComm(m, Polynomial); }
        Xor(l / 2, Xor(Polynomial, m));
        { XorAssoc(l / 2, Polynomial, m); }
        Xor(Round(l), m);
      }
    }
  }

  /** Generalisation over `k` rounds: bits above the low `k` are only shifted
      down by the rounds. */
  lemma {:induction false} RoundsShift(l: nat, m: nat, k: nat)
    ensures Rounds(Xor(l, Pow2(k) * m), k) == Xor(Rounds(l, k), m)
    decreases k
  {
    if k > 0 {
      var p := Pow2(k - 1);
      assert Pow2(k) * m == p * (2 * m);
      RoundsShift(l, 2 * m, k - 1);
      RoundShift(Rounds(l, k - 1), m);
    }
  }

  /** One table lookup does the work of eight bitwise rounds. */
  lemma TableStep(crc: u32, b: byte)
    ensures Xor(crc, b) % 0x100 < 0x100
    ensures Xor(TableEntry(Xor(crc, b) % 0x100), crc / 0x100) == Update(crc, b)
  {
    var x := Xor(crc, b);
    var lo, hi := x % 0x100, x / 0x100;
    assert Pow2(8) == 0x100;
    XorDisjoint(lo, hi, 8);
    assert x == Xor(lo, Pow2(8) * hi);
    RoundsShift(lo, hi, 8);
    XorHighByte(crc, b);
  }

  /** `Crc32.Compute`: the table-driven loop computes the bitwise checksum. */
  method Compute(table: array<u32>, bytes: seq<byte>) returns (result: u32)
    requires IsCrcTable(table)
    ensures result == Checksum(bytes)
  {
    var crc: u32 := 0xFFFF_FFFF;
    var i := 0;
    while i < |bytes|
      invariant 0 <= i <= |bytes|
      invariant crc == Register(bytes[..i])
    {
      TableStep(crc, bytes[i]);
      UpdateBound(crc, bytes[i]);
      assert bytes[..i + 1][..i] == bytes[..i];
      crc := Xor(table[Xor(crc, bytes[i]) % 0x100], crc / 0x100);
      i := i + 1;
    }
    assert bytes[..i] == bytes;
    result := 0xFFFF_FFFF - crc;
  }

  /** The checksum of no bytes is zero: the initial value complemented. */
  lemma ChecksumOfEmpty()
    ensures Checksum([]) == 0
  {
  }
}
