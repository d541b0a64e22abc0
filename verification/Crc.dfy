/** The block checksum: a table-driven 32-bit CRC, most significant bit first (libc/bzlib_private.h:153-172, libc/compress.c:602-605). */
module Crc {
  import opened Words

  const WORD := 0x1_0000_0000

  /** Bitwise exclusive or. */
  function Xor(x: nat, y: nat): nat {
    if x == 0 && y == 0 then 0 else 2 * Xor(x / 2, y / 2) + (if x % 2 == y % 2 then 0 else 1)
  }

  lemma {:induction false} XorBound(x: nat, y: nat, k: nat)
    requires x < Pow2(k) && y < Pow2(k)
    ensures Xor(x, y) < Pow2(k)
    decreases k
  {
    if k > 0 && !(x == 0 && y == 0) { XorBound(x / 2, y / 2, k - 1); }
  }

  lemma {:induction false} XorZero(x: nat)
    ensures Xor(x, 0) == x && Xor(0, x) == x
  {
    if x != 0 { XorZero(x / 2); }
  }

  /** The 256-entry table of the polynomial; the laws below hold for any. */
  ghost predicate Table(t: seq<nat>) {
    |t| == 256 && forall i :: 0 <= i < 256 ==> t[i] < WORD
  }

  /** BZ_UPDATE_CRC */
  function Update(t: seq<nat>, crc: nat, c: Byte): (r: nat)
    requires Table(t) && crc < WORD
    ensures r < WORD
  {
    Pow2Values();
    XorBound(crc / 0x100_0000, c, 8);
    XorBound(crc * 256 % WORD, t[Xor(crc / 0x100_0000, c)], 32);
    Xor(crc * 256 % WORD, t[Xor(crc / 0x100_0000, c)])
  }

  const INITIAL := 0xffff_ffff

  /** BZ_FINALISE_CRC */
  function Finalise(crc: nat): (r: nat)
    requires crc < WORD
    ensures r < WORD
  {
    0xffff_ffff - crc
  }

  ghost function Sum(t: seq<nat>, crc: nat, s: seq<Byte>): (r: nat)
    requires Table(t) && crc < WORD
    ensures r < WORD
    decreases |s|
  {
    if s == [] then crc else Update(t, Sum(t, crc, s[..|s| - 1]), s[|s| - 1])
  }

  lemma SumNext(t: seq<nat>, crc: nat, s: seq<Byte>, c: Byte)
    requires Table(t) && crc < WORD
    ensures Sum(t, crc, s + [c]) == Update(t, Sum(t, crc, s), c)
  {
    assert (s + [c])[..|s|] == s;
  }

  /** The checksum of a block's bytes. */
  ghost function Checksum(t: seq<nat>, s: seq<Byte>): (r: nat)
    requires Table(t)
    ensures r < WORD
  {
    Finalise(Sum(t, INITIAL, s))
  }

  /** The running combination of block checksums: rotate left by one, then exclusive or. */
  function Combine(combined: nat, crc: nat): (r: nat)
    requires combined < WORD && crc < WORD
    ensures r < WORD
  {
    Pow2Values();
    var rotated := Or(combined * 2 % WORD, combined / 0x8000_0000);
    RotateBound(combined);
    XorBound(rotated, crc, 32);
    Xor(rotated, crc)
  }

  lemma RotateBound(x: nat)
    requires x < WORD
    ensures Or(x * 2 % WORD, x / 0x8000_0000) < WORD
  {
    hide Or;
    assert Pow2(1) == 2;
    var top, low := x / 0x8000_0000, x % 0x8000_0000;
    Halves(x, top, low);
    OrIntoClear(low, top, 1);
  }

  lemma Halves(x: nat, top: nat, low: nat)
    requires x < WORD && top == x / 0x8000_0000 && low == x % 0x8000_0000
    ensures top < 2 && x * 2 % WORD == low * 2
  {
  }
}
