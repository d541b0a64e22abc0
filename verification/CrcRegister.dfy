/**
 * What the table-driven checksums compute: the division register of the polynomial, one bit at a time. Both tables
 * are those of CRC-32, bzip2's from the highest bit down (libc/bzlib_private.h:153-172, libc/crctable.c:31-102), gzip's
 * from the lowest bit up (libc/checksum.c:26-69).
 */
module CrcRegister {
  import opened Words
  import opened BitStream
  import opened Crc
  import opened GzipBits
  import opened GzipInflate

  const TOP := 0x8000_0000
  const POLY := 0x04c1_1db7
  const REFLECTED := 0xedb8_8320

  // ---- exclusive or ----

  /** Bit k of the exclusive or is set when the two bits differ. */
  lemma {:induction false} XorBits(x: nat, y: nat, k: nat)
    ensures Xor(x, y) / Pow2(k) % 2 == (if x / Pow2(k) % 2 == y / Pow2(k) % 2 then 0 else 1)
    decreases k
  {
    hide Xor, Pow2;
    XorHalves(x, y);
    if k == 0 {
      NoBits();
    } else {
      XorBits(x / 2, y / 2, k - 1);
      HalfThen(x, k);
      HalfThen(y, k);
      HalfThen(Xor(x, y), k);
    }
  }

  lemma {:induction false} XorComm(x: nat, y: nat)
    ensures Xor(x, y) == Xor(y, x)
    decreases x + y
  {
    if x != 0 || y != 0 { XorComm(x / 2, y / 2); }
  }

  lemma {:induction false} XorAssoc(x: nat, y: nat, z: nat)
    ensures Xor(Xor(x, y), z) == Xor(x, Xor(y, z))
    decreases x + y + z
  {
    if x != 0 || y != 0 || z != 0 {
      XorAssoc(x / 2, y / 2, z / 2);
      XorHalves(x, y);
      XorHalves(y, z);
      XorHalves(Xor(x, y), z);
      XorHalves(x, Xor(y, z));
    }
  }

  lemma XorHalves(x: nat, y: nat)
    ensures Xor(x, y) / 2 == Xor(x / 2, y / 2)
    ensures Xor(x, y) % 2 == (if x % 2 == y % 2 then 0 else 1)
  {
  }

  lemma {:induction false} XorSelf(x: nat)
    ensures Xor(x, x) == 0
  {
    if x != 0 { XorSelf(x / 2); }
  }

  lemma XorUndone(x: nat, y: nat)
    ensures Xor(Xor(x, y), y) == x
  {
    hide Xor;
    XorAssoc(x, y, y);
    XorSelf(y);
    XorZero(x);
  }

  lemma XorSwap(a: nat, b: nat, c: nat, d: nat)
    ensures Xor(Xor(a, b), Xor(c, d)) == Xor(Xor(a, c), Xor(b, d))
  {
    hide Xor;
    XorAssoc(a, b, Xor(c, d));
    XorAssoc(b, c, d);
    XorComm(b, c);
    XorAssoc(c, b, d);
    XorAssoc(a, c, Xor(b, d));
  }

  /** The upper and the lower bits apart. */
  lemma {:induction false} XorJoin(a: nat, b: nat, c: nat, d: nat, k: nat)
    requires b < Pow2(k) && d < Pow2(k)
    ensures Xor(a * Pow2(k) + b, c * Pow2(k) + d) == Xor(a, c) * Pow2(k) + Xor(b, d)
    decreases k
  {
    hide Xor, Pow2;
    if k == 0 {
      NoBits();
      XorZero(0);
    } else {
      Powers(k);
      var p := Pow2(k - 1);
      XorJoin(a, b / 2, c, d / 2, k - 1);
      Doubled(a, p);
      Doubled(c, p);
      Doubled(Xor(a, c), p);
      var x, y := a * p, c * p;
      XorOnce(2 * x + b, 2 * y + d, x + b / 2, y + d / 2);
      XorOnce(b, d, b / 2, d / 2);
    }
  }

  lemma XorOnce(x: nat, y: nat, hx: nat, hy: nat)
    requires hx == x / 2 && hy == y / 2
    ensures Xor(x, y) == 2 * Xor(hx, hy) + (if x % 2 == y % 2 then 0 else 1)
  {
  }

  /** Exclusive or with one same word takes different words to different words. */
  lemma XorInjective(x: nat, y: nat, m: nat)
    requires Xor(x, m) == Xor(y, m)
    ensures x == y
  {
    hide Xor;
    XorUndone(x, m);
    XorUndone(y, m);
  }

  // ---- highest bit first ----

  /** One step of the division: shift left, and subtract the polynomial when a one falls out. */
  ghost function Shift(x: nat): (r: nat)
    requires x < WORD
    ensures r < WORD
  {
    Pow2Values();
    if x < TOP then 2 * x
    else
      XorBound(2 * x - WORD, POLY, 32);
      Xor(2 * x - WORD, POLY)
  }

  ghost function Shifted(x: nat, k: nat): (r: nat)
    requires x < WORD
    ensures r < WORD
  {
    if k == 0 then x else Shift(Shifted(x, k - 1))
  }

  /** One bit enters at the top. */
  ghost function Fed(c: nat, bit: bool): (r: nat)
    requires c < WORD
    ensures r < WORD
  {
    Pow2Values();
    XorBound(c, Mark(bit), 32);
    Shift(Xor(c, Mark(bit)))
  }

  ghost function Mark(bit: bool): (m: nat)
    ensures m < WORD
  {
    if bit then TOP else 0
  }

  /** The register after all the bits. */
  ghost function Register(c: nat, bits: seq<bool>): (r: nat)
    requires c < WORD
    ensures r < WORD
    decreases |bits|
  {
    if bits == [] then c else Fed(Register(c, bits[..|bits| - 1]), bits[|bits| - 1])
  }

  /** BZ2_crc32Table: entry i is eight steps of i in the top byte. */
  ghost predicate Divides(t: seq<nat>) {
    Table(t) && forall i: nat :: i < 256 ==> t[i] == Shifted(i * 0x100_0000, 8)
  }

  lemma ShiftParts(h: nat, l: nat)
    requires h < 2 && l < TOP
    ensures Shift(h * TOP + l) == Xor(2 * l, h * POLY)
  {
    hide Xor;
    XorZero(2 * l);
  }

  lemma Pow31()
    ensures Pow2(31) == TOP
  {
    Pow2Values();
    assert Pow2(32) == 2 * Pow2(31);
  }

  lemma WordXor(x: nat, y: nat)
    requires x < WORD && y < WORD
    ensures Xor(x, y) < WORD
  {
    Pow2Values();
    XorBound(x, y, 32);
  }

  lemma ShiftLinear(x: nat, y: nat)
    requires x < WORD && y < WORD
    ensures Xor(x, y) < WORD && Shift(Xor(x, y)) == Xor(Shift(x), Shift(y))
  {
    hide Xor, Shift;
    WordXor(x, y);
    Pow31();
    var hx, lx, hy, ly := x / TOP, x % TOP, y / TOP, y % TOP;
    XorJoin(hx, lx, hy, ly, 31);
    XorBound(lx, ly, 31);
    var h := Xor(hx, hy);
    BitXor(hx, hy);
    ShiftParts(hx, lx);
    ShiftParts(hy, ly);
    ShiftParts(h, Xor(lx, ly));
    XorDouble(lx, ly);
    XorSwap(2 * lx, 2 * ly, hx * POLY, hy * POLY);
  }

  lemma BitXor(a: nat, b: nat)
    requires a < 2 && b < 2
    ensures Xor(a, b) == (if a == b then 0 else 1)
    ensures forall p: nat :: Xor(a * p, b * p) == Xor(a, b) * p
  {
    XorZero(0);
    forall p: nat
      ensures Xor(a * p, b * p) == Xor(a, b) * p
    {
      XorSelf(p);
      XorZero(p);
    }
  }

  lemma XorDouble(x: nat, y: nat)
    ensures Xor(2 * x, 2 * y) == 2 * Xor(x, y)
  {
    XorOnce(2 * x, 2 * y, x, y);
  }

  lemma {:induction false} ShiftedLinear(x: nat, y: nat, k: nat)
    requires x < WORD && y < WORD
    ensures Xor(x, y) < WORD && Shifted(Xor(x, y), k) == Xor(Shifted(x, k), Shifted(y, k))
  {
    hide Xor, Shift;
    WordXor(x, y);
    if k > 0 {
      ShiftedLinear(x, y, k - 1);
      ShiftLinear(Shifted(x, k - 1), Shifted(y, k - 1));
    }
  }

  /** Nothing falls out while there is room. */
  lemma {:induction false} ShiftedFree(x: nat, k: nat)
    requires x * Pow2(k) < WORD
    ensures x < WORD && Shifted(x, k) == x * Pow2(k)
  {
    Scale(1, Pow2(k), x);
    if k > 0 {
      Doubled(x, Pow2(k - 1));
      ShiftedFree(x, k - 1);
    }
  }

  /** Feeding up to 32 bits is putting them at the top and shifting. */
  lemma {:induction false} RegisterIs(c: nat, b: nat, k: nat)
    requires c < WORD && k <= 32 && b < Pow2(k)
    ensures b * Pow2(32 - k) < WORD && Xor(c, b * Pow2(32 - k)) < WORD
    ensures Register(c, ToBits(b, k)) == Shifted(Xor(c, b * Pow2(32 - k)), k)
    decreases k
  {
    hide Xor, Shift, Pow2;
    PlacedBound(b, k);
    var p := b * Pow2(32 - k);
    WordXor(c, p);
    if k == 0 {
      assert b == 0 by { NoBits(); }
      XorZero(c);
    } else {
      var q, r := b / 2, b % 2;
      assert q < Pow2(k - 1) && Pow2(33 - k) == 2 * Pow2(32 - k) by { Powers(k); Powers(33 - k); }
      RegisterIs(c, q, k - 1);
      var p', m := q * Pow2(33 - k), r * Pow2(32 - k);
      PlacedSplit(q, r, k);
      assert p == Xor(p', m) && m * Pow2(k - 1) == r * TOP && m < WORD && p' < WORD;
      XorAssoc(c, p', m);
      ShiftedLinear(Xor(c, p'), m, k - 1);
      ShiftedFree(m, k - 1);
      var bits := ToBits(b, k);
      assert bits[..k - 1] == ToBits(q, k - 1) && bits[k - 1] == (r == 1);
      FedIs(Register(c, bits[..k - 1]), r);
    }
  }

  lemma NoBits()
    ensures Pow2(0) == 1
  {
  }

  lemma Powers(k: nat)
    requires k > 0
    ensures Pow2(k) == 2 * Pow2(k - 1)
  {
  }

  lemma FedIs(c: nat, r: nat)
    requires c < WORD && r < 2
    ensures Xor(c, r * TOP) < WORD && Fed(c, r == 1) == Shift(Xor(c, r * TOP))
  {
    WordXor(c, r * TOP);
  }

  lemma PlacedBound(b: nat, k: nat)
    requires k <= 32 && b < Pow2(k)
    ensures b * Pow2(32 - k) < WORD
  {
    hide Pow2;
    Pow2Values();
    Pow2Add(k, 32 - k);
    Scale(b + 1, Pow2(k), Pow2(32 - k));
    Spread(b, 1, Pow2(32 - k));
  }

  lemma PlacedSplit(q: nat, r: nat, k: nat)
    requires 0 < k <= 32 && q < Pow2(k - 1) && r < 2
    ensures var p', m := q * Pow2(33 - k), r * Pow2(32 - k);
      p' < WORD && m < WORD && (2 * q + r) * Pow2(32 - k) == Xor(p', m) && m * Pow2(k - 1) == r * TOP
  {
    hide Pow2, Xor;
    var s := Pow2(32 - k);
    Powers(33 - k);
    Powers(k);
    PlacedBound(q, k - 1);
    PlacedBound(r, k) by { assert Pow2(k) >= 2; }
    Doubled(q, s);
    Spread(2 * q, r, s);
    MulAssoc(2, q, s);
    // the two parts share no bits
    XorJoin(q, 0, 0, r * s, 33 - k) by { assert r * s < 2 * s by { Scale(r, 1, s); } }
    XorZero(q);
    XorZero(r * s);
    Pow31();
    Pow2Add(32 - k, k - 1);
    MulAssoc(r, s, Pow2(k - 1));
  }

  lemma {:induction false} RegisterAppend(c: nat, a: seq<bool>, b: seq<bool>)
    requires c < WORD
    ensures Register(c, a + b) == Register(Register(c, a), b)
    decreases |b|
  {
    hide Fed;
    if b == [] {
      NothingAfter(a);
    } else {
      var n := |b| - 1;
      RegisterAppend(c, a, b[..n]);
      assert (a + b)[..|a + b| - 1] == a + b[..n];
    }
  }

  /** One look into the table is eight steps of the register. */
  lemma UpdateIs(t: seq<nat>, c: nat, b: Byte)
    requires Divides(t) && c < WORD
    ensures Update(t, c, b) == Register(c, ToBits(b, 8))
  {
    hide Xor, Shifted, Pow2, Register, ToBits;
    Pow2Values();
    var h, l := c / 0x100_0000, c % 0x100_0000;
    XorBound(h, b, 8);
    var i := Xor(h, b);
    RegisterIs(c, b, 8);
    XorJoin(h, l, b, 0, 24);
    XorZero(l);
    XorJoin(i, 0, 0, l, 24);
    XorZero(i);
    ShiftedLinear(i * 0x100_0000, l, 8);
    ShiftedFree(l, 8);
    assert c * 256 % WORD == l * 256;
    XorComm(l * 256, t[i]);
  }

  /** The checksum of a block is the register fed every byte from its highest bit. */
  lemma {:induction false} SumIsRegister(t: seq<nat>, c: nat, s: seq<Byte>)
    requires Divides(t) && c < WORD
    ensures Sum(t, c, s) == Register(c, BytesToBits(s))
    decreases |s|
  {
    hide Update, ToBits, Shifted;
    if s == [] {
    } else {
      var front, last := s[..|s| - 1], s[|s| - 1];
      SumIsRegister(t, c, front);
      UpdateIs(t, Sum(t, c, front), last);
      assert s == front + [last] && [last][1..] == [];
      BytesToBitsAppend(front, [last]);
      assert BytesToBits([last]) == ToBits(last, 8) by { NothingAfter(ToBits(last, 8)); }
      RegisterAppend(c, BytesToBits(front), ToBits(last, 8));
    }
  }

  lemma ShiftInjective(x: nat, y: nat)
    requires x < WORD && y < WORD && Shift(x) == Shift(y)
    ensures x == y
  {
    hide Xor, Shift;
    var hx, lx, hy, ly := x / TOP, x % TOP, y / TOP, y % TOP;
    ShiftParts(hx, lx);
    ShiftParts(hy, ly);
    XorHalves(2 * lx, hx * POLY);
    XorHalves(2 * ly, hy * POLY);
    assert hx == hy;
    XorInjective(2 * lx, 2 * ly, hx * POLY);
  }

  lemma {:induction false} ShiftedInjective(x: nat, y: nat, k: nat)
    requires x < WORD && y < WORD && Shifted(x, k) == Shifted(y, k)
    ensures x == y
  {
    hide Shift;
    if k > 0 {
      ShiftInjective(Shifted(x, k - 1), Shifted(y, k - 1));
      ShiftedInjective(x, y, k - 1);
    }
  }

  lemma {:induction false} RegisterInjective(c: nat, d: nat, bits: seq<bool>)
    requires c < WORD && d < WORD && Register(c, bits) == Register(d, bits)
    ensures c == d
    decreases |bits|
  {
    hide Shift, Xor;
    if bits != [] {
      var front, m := bits[..|bits| - 1], Mark(bits[|bits| - 1]);
      var x, y := Register(c, front), Register(d, front);
      WordXor(x, m);
      WordXor(y, m);
      ShiftInjective(Xor(x, m), Xor(y, m));
      XorInjective(x, y, m);
      RegisterInjective(c, d, front);
    }
  }

  /** Up to 32 bits leave different marks in the register when they differ. */
  lemma WindowInjective(c: nat, w: seq<bool>, v: seq<bool>)
    requires c < WORD && |w| == |v| <= 32 && Register(c, w) == Register(c, v)
    ensures w == v
  {
    hide Xor, Register, Shifted, Pow2, ToBits, FromBits;
    var k := |w|;
    var a, b := FromBits(w), FromBits(v);
    ToFromBits(w);
    ToFromBits(v);
    FromBitsBound(w);
    FromBitsBound(v);
    RegisterIs(c, a, k);
    RegisterIs(c, b, k);
    var s := Pow2(32 - k);
    ShiftedInjective(Xor(c, a * s), Xor(c, b * s), k);
    XorComm(c, a * s);
    XorComm(c, b * s);
    XorInjective(a * s, b * s, c);
    if a < b { Scale(a + 1, b, s); Spread(a, 1, s); } else if b < a { Scale(b + 1, a, s); Spread(b, 1, s); }
  }

  /** Two blocks that differ only inside 32 neighbouring bits have different checksums. */
  lemma BurstSeen(t: seq<nat>, s: seq<Byte>, u: seq<Byte>, p: seq<bool>, w: seq<bool>, v: seq<bool>, q: seq<bool>)
    requires Divides(t) && |w| == |v| <= 32 && w != v
    requires BytesToBits(s) == p + w + q && BytesToBits(u) == p + v + q
    ensures Checksum(t, s) != Checksum(t, u)
  {
    hide Register, Sum, BytesToBits, Divides;
    SumIsRegister(t, INITIAL, s);
    SumIsRegister(t, INITIAL, u);
    RegisterAppend(INITIAL, p + w, q);
    RegisterAppend(INITIAL, p, w);
    RegisterAppend(INITIAL, p + v, q);
    RegisterAppend(INITIAL, p, v);
    var c := Register(INITIAL, p);
    if Register(Register(c, w), q) == Register(Register(c, v), q) {
      RegisterInjective(Register(c, w), Register(c, v), q);
      WindowInjective(c, w, v);
      assert false;
    }
  }

  /** In particular one changed byte always shows. */
  lemma ByteSeen(t: seq<nat>, s: seq<Byte>, u: seq<Byte>, k: nat)
    requires Divides(t) && |s| == |u| && k < |s| && s[k] != u[k]
    requires forall i :: 0 <= i < |s| && i != k ==> s[i] == u[i]
    ensures Checksum(t, s) != Checksum(t, u)
  {
    hide Checksum, Divides, ToBits, BytesToBits;
    BytesAround(s, k);
    BytesAround(u, k);
    assert s[..k] == u[..k] && s[k + 1..] == u[k + 1..];
    Pow2Values();
    FromToBits(s[k], 8);
    FromToBits(u[k], 8);
    BurstSeen(t, s, u, BytesToBits(s[..k]), ToBits(s[k], 8), ToBits(u[k], 8), BytesToBits(s[k + 1..]));
  }

  lemma BytesAround(s: seq<Byte>, k: nat)
    requires k < |s|
    ensures BytesToBits(s) == BytesToBits(s[..k]) + ToBits(s[k], 8) + BytesToBits(s[k + 1..])
  {
    hide ToBits;
    var tail := s[k..];
    assert s == s[..k] + tail && tail[0] == s[k] && tail[1..] == s[k + 1..];
    BytesToBitsAppend(s[..k], tail);
    Regroup(BytesToBits(s[..k]), ToBits(s[k], 8), BytesToBits(s[k + 1..]));
  }

  // ---- lowest bit first ----

  /** One step: shift right, and subtract the reflected polynomial when a one falls out. */
  ghost function ShiftLow(x: nat): (r: nat)
    requires x < WORD
    ensures r < WORD
  {
    Pow2Values();
    if x % 2 == 0 then x / 2
    else
      XorBound(x / 2, REFLECTED, 32);
      Xor(x / 2, REFLECTED)
  }

  ghost function ShiftedLow(x: nat, k: nat): (r: nat)
    requires x < WORD
    ensures r < WORD
  {
    if k == 0 then x else ShiftLow(ShiftedLow(x, k - 1))
  }

  /** One bit enters at the bottom. */
  ghost function FedLow(c: nat, bit: bool): (r: nat)
    requires c < WORD
    ensures r < WORD
  {
    Pow2Values();
    XorBound(c, Unit(bit), 32);
    ShiftLow(Xor(c, Unit(bit)))
  }

  ghost function Unit(bit: bool): (m: nat)
    ensures m < 2
  {
    if bit then 1 else 0
  }

  ghost function RegisterLow(c: nat, bits: seq<bool>): (r: nat)
    requires c < WORD
    ensures r < WORD
    decreases |bits|
  {
    if bits == [] then c else FedLow(RegisterLow(c, bits[..|bits| - 1]), bits[|bits| - 1])
  }

  /** g_crc32_tab: entry i is eight steps of i. */
  ghost predicate DividesLow(t: seq<nat>) {
    Table(t) && forall i: nat :: i < 256 ==> t[i] == ShiftedLow(i, 8)
  }

  lemma ShiftLowParts(x: nat)
    requires x < WORD
    ensures ShiftLow(x) == Xor(x / 2, x % 2 * REFLECTED)
  {
    hide Xor;
    XorZero(x / 2);
  }

  lemma ShiftLowLinear(x: nat, y: nat)
    requires x < WORD && y < WORD
    ensures Xor(x, y) < WORD && ShiftLow(Xor(x, y)) == Xor(ShiftLow(x), ShiftLow(y))
  {
    hide Xor, ShiftLow;
    WordXor(x, y);
    XorHalves(x, y);
    BitXor(x % 2, y % 2);
    ShiftLowParts(x);
    ShiftLowParts(y);
    ShiftLowParts(Xor(x, y));
    XorSwap(x / 2, y / 2, x % 2 * REFLECTED, y % 2 * REFLECTED);
  }

  lemma {:induction false} ShiftedLowLinear(x: nat, y: nat, k: nat)
    requires x < WORD && y < WORD
    ensures Xor(x, y) < WORD && ShiftedLow(Xor(x, y), k) == Xor(ShiftedLow(x, k), ShiftedLow(y, k))
  {
    hide Xor, ShiftLow;
    WordXor(x, y);
    if k > 0 {
      ShiftedLowLinear(x, y, k - 1);
      ShiftLowLinear(ShiftedLow(x, k - 1), ShiftedLow(y, k - 1));
    }
  }

  lemma {:induction false} ShiftedLowFree(x: nat, y: nat, k: nat)
    requires y == x * Pow2(k) && y < WORD
    ensures ShiftedLow(y, k) == x
    decreases k
  {
    hide Pow2, ShiftLow, Xor;
    if k == 0 {
      NoBits();
    } else {
      Powers(k);
      var p := Pow2(k - 1);
      Doubled(x, p);
      MulAssoc(2, x, p);
      ShiftedLowFree(2 * x, y, k - 1);
      Scale(1, p, 2 * x);
      ShiftLowParts(2 * x);
      XorZero(x);
    }
  }

  lemma {:induction false} RegisterLowIs(c: nat, b: nat, k: nat)
    requires c < WORD && k <= 32 && b < Pow2(k)
    ensures Xor(c, b) < WORD && RegisterLow(c, LowBits(b, k)) == ShiftedLow(Xor(c, b), k)
    decreases k
  {
    hide Xor, ShiftLow, Pow2, LowBits;
    Pow2Values();
    Pow2Monotone(k, 32);
    WordXor(c, b);
    if k == 0 {
      NoBits();
      NoLowBits(b);
      XorZero(c);
    } else {
      var r, l, top := TopBit(b, k);
      RegisterLowIs(c, l, k - 1);
      XorAssoc(c, l, top);
      ShiftedLowLinear(Xor(c, l), top, k - 1);
      ShiftedLowFree(r, top, k - 1);
      var bits := LowBits(b, k);
      assert bits[..k - 1] == LowBits(l, k - 1) && bits[k - 1] == (r == 1);
      assert Unit(r == 1) == r;
    }
  }

  /** The topmost of k bits apart from the others. */
  lemma TopBit(b: nat, k: nat) returns (r: nat, l: nat, top: nat)
    requires 0 < k <= 32 && b < Pow2(k)
    ensures r < 2 && l < Pow2(k - 1) && top == r * Pow2(k - 1) && top < WORD
    ensures b == Xor(l, top) && LowBits(b, k) == LowBits(l, k - 1) + [r == 1]
  {
    hide Xor, Pow2, LowBits;
    Powers(k);
    Pow2Values();
    Pow2Monotone(k, 32);
    var s := Pow2(k - 1);
    r, l, top := 0, b, 0;
    if b >= s { r, l, top := 1, b - s, s; }
    assert s * r == top && r * s == top;
    // the two parts share no bits
    XorJoin(0, l, r, 0, k - 1);
    XorZero(l);
    XorZero(r);
    LowBitsSplit(l, r, k - 1, 1);
    OneLowBit(r);
  }

  lemma OneLowBit(r: nat)
    requires r < 2
    ensures LowBits(r, 1) == [r == 1]
  {
    assert LowBits(r / 2, 0) == [];
  }

  lemma {:induction false} RegisterLowAppend(c: nat, a: seq<bool>, b: seq<bool>)
    requires c < WORD
    ensures RegisterLow(c, a + b) == RegisterLow(RegisterLow(c, a), b)
    decreases |b|
  {
    hide FedLow;
    if b == [] {
      NothingAfter(a);
    } else {
      var n := |b| - 1;
      RegisterLowAppend(c, a, b[..n]);
      assert (a + b)[..|a + b| - 1] == a + b[..n];
    }
  }

  lemma UpdateLowIs(t: seq<nat>, c: nat, b: Byte)
    requires DividesLow(t) && c < WORD
    ensures UpdateLow(t, c, b) == RegisterLow(c, LowBits(b, 8))
  {
    hide Xor, ShiftedLow, Pow2, RegisterLow, LowBits;
    Pow2Values();
    var h, l := c / 256, c % 256;
    RegisterLowIs(c, b, 8);
    XorJoin(h, l, 0, b, 8);
    XorZero(h);
    XorBound(l, b, 8);
    var i := Xor(l, b);
    XorJoin(0, i, h, 0, 8);
    XorZero(i);
    ShiftedLowLinear(i, h * 256, 8);
    ShiftedLowFree(h, h * 256, 8);
    assert Xor(c, b) == h * 256 + i;
    assert Xor(c, b) % 256 == i;
  }

  /** The checksum of a member is the register fed every byte from its lowest bit: the bits as they are in the file. */
  lemma {:induction false} SumLowIsRegister(t: seq<nat>, s: seq<Byte>)
    requires DividesLow(t)
    ensures SumLow(t, s) == RegisterLow(INITIAL, ByteBits(s))
    decreases |s|
  {
    hide UpdateLow, LowBits, ShiftedLow;
    if s == [] {
    } else {
      var front, last := s[..|s| - 1], s[|s| - 1];
      SumLowIsRegister(t, front);
      UpdateLowIs(t, SumLow(t, front), last);
      assert s == front + [last] && [last][1..] == [];
      ByteBitsAppend(front, [last]);
      assert ByteBits([last]) == LowBits(last, 8) by { NothingAfter(LowBits(last, 8)); }
      RegisterLowAppend(INITIAL, ByteBits(front), LowBits(last, 8));
    }
  }

  lemma ShiftLowInjective(x: nat, y: nat)
    requires x < WORD && y < WORD && ShiftLow(x) == ShiftLow(y)
    ensures x == y
  {
    hide Xor, ShiftLow;
    ShiftLowParts(x);
    ShiftLowParts(y);
    TopTells(x / 2, x % 2);
    TopTells(y / 2, y % 2);
    XorInjective(x / 2, y / 2, x % 2 * REFLECTED);
  }

  /** The top bit of the shifted word is the bit that fell out. */
  lemma TopTells(x: nat, r: nat)
    requires x < TOP && r < 2
    ensures Xor(x, r * REFLECTED) / TOP == r
  {
    hide Xor;
    Pow31();
    var low := r * REFLECTED - r * TOP;
    XorJoin(0, x, r, low, 31);
    XorBound(x, low, 31);
    XorZero(r);
    Quotient(Xor(x, r * REFLECTED), r, TOP, Xor(x, low));
  }

  lemma {:induction false} ShiftedLowInjective(x: nat, y: nat, k: nat)
    requires x < WORD && y < WORD && ShiftedLow(x, k) == ShiftedLow(y, k)
    ensures x == y
  {
    hide ShiftLow;
    if k > 0 {
      ShiftLowInjective(ShiftedLow(x, k - 1), ShiftedLow(y, k - 1));
      ShiftedLowInjective(x, y, k - 1);
    }
  }

  lemma {:induction false} RegisterLowInjective(c: nat, d: nat, bits: seq<bool>)
    requires c < WORD && d < WORD && RegisterLow(c, bits) == RegisterLow(d, bits)
    ensures c == d
    decreases |bits|
  {
    hide ShiftLow, Xor;
    if bits != [] {
      var front, m := bits[..|bits| - 1], Unit(bits[|bits| - 1]);
      var x, y := RegisterLow(c, front), RegisterLow(d, front);
      WordXor(x, m);
      WordXor(y, m);
      ShiftLowInjective(Xor(x, m), Xor(y, m));
      XorInjective(x, y, m);
      RegisterLowInjective(c, d, front);
    }
  }

  lemma WindowLowInjective(c: nat, w: seq<bool>, v: seq<bool>)
    requires c < WORD && |w| == |v| <= 32 && RegisterLow(c, w) == RegisterLow(c, v)
    ensures w == v
  {
    hide Xor, RegisterLow, ShiftedLow, Pow2, LowBits, FromLow;
    var a, b := FromLow(w), FromLow(v);
    LowBitsBack(w);
    LowBitsBack(v);
    FromLowBound(w);
    FromLowBound(v);
    RegisterLowIs(c, a, |w|);
    RegisterLowIs(c, b, |w|);
    ShiftedLowInjective(Xor(c, a), Xor(c, b), |w|);
    XorComm(c, a);
    XorComm(c, b);
    XorInjective(a, b, c);
  }

  /** Two members that differ only inside 32 neighbouring bits have different checksums. */
  lemma BurstSeenLow(t: seq<nat>, s: seq<Byte>, u: seq<Byte>, p: seq<bool>, w: seq<bool>, v: seq<bool>, q: seq<bool>)
    requires DividesLow(t) && |w| == |v| <= 32 && w != v
    requires ByteBits(s) == p + w + q && ByteBits(u) == p + v + q
    ensures Finalise(SumLow(t, s)) != Finalise(SumLow(t, u))
  {
    hide RegisterLow, SumLow, ByteBits, DividesLow;
    SumLowIsRegister(t, s);
    SumLowIsRegister(t, u);
    RegisterLowAppend(INITIAL, p + w, q);
    RegisterLowAppend(INITIAL, p, w);
    RegisterLowAppend(INITIAL, p + v, q);
    RegisterLowAppend(INITIAL, p, v);
    var c := RegisterLow(INITIAL, p);
    if RegisterLow(RegisterLow(c, w), q) == RegisterLow(RegisterLow(c, v), q) {
      RegisterLowInjective(RegisterLow(c, w), RegisterLow(c, v), q);
      WindowLowInjective(c, w, v);
      assert false;
    }
  }

  lemma ByteSeenLow(t: seq<nat>, s: seq<Byte>, u: seq<Byte>, k: nat)
    requires DividesLow(t) && |s| == |u| && k < |s| && s[k] != u[k]
    requires forall i :: 0 <= i < |s| && i != k ==> s[i] == u[i]
    ensures Finalise(SumLow(t, s)) != Finalise(SumLow(t, u))
  {
    hide SumLow, DividesLow, LowBits, ByteBits;
    BytesAroundLow(s, k);
    BytesAroundLow(u, k);
    assert s[..k] == u[..k] && s[k + 1..] == u[k + 1..];
    Pow2Values();
    FromLowBits(s[k], 8);
    FromLowBits(u[k], 8);
    BurstSeenLow(t, s, u, ByteBits(s[..k]), LowBits(s[k], 8), LowBits(u[k], 8), ByteBits(s[k + 1..]));
  }

  lemma BytesAroundLow(s: seq<Byte>, k: nat)
    requires k < |s|
    ensures ByteBits(s) == ByteBits(s[..k]) + LowBits(s[k], 8) + ByteBits(s[k + 1..])
  {
    hide LowBits;
    var tail := s[k..];
    assert s == s[..k] + tail && tail[0] == s[k] && tail[1..] == s[k + 1..];
    ByteBitsAppend(s[..k], tail);
    Regroup(ByteBits(s[..k]), LowBits(s[k], 8), ByteBits(s[k + 1..]));
  }

  /** aux_crc32_init */
  method MakeTable() returns (t: array<nat>)
    ensures t.Length == 256 && DividesLow(t[..]) && fresh(t)
  {
    hide Xor;
    t := new nat[256];
    for i := 0 to 256
      invariant forall n: nat :: n < i ==> t[n] == ShiftedLow(n, 8)
    {
      var c: nat := i;
      for j := 0 to 8
        invariant c < WORD && c == ShiftedLow(i, j)
        invariant forall n: nat :: n < i ==> t[n] == ShiftedLow(n, 8)
      {
        WordXor(c / 2, REFLECTED);
        c := if c % 2 == 1 then Xor(c / 2, REFLECTED) else c / 2;
      }
      t[i] := c;
    }
  }

  // ---- the first and the last word ----

  /** The complement is exclusive or with all ones. */
  lemma {:induction false} XorOnes(x: nat, k: nat)
    requires x < Pow2(k)
    ensures Xor(Pow2(k) - 1, x) == Pow2(k) - 1 - x
    decreases k
  {
    if k > 0 {
      XorOnes(x / 2, k - 1);
      XorOnce(Pow2(k) - 1, x, Pow2(k - 1) - 1, x / 2);
    } else {
      XorZero(0);
    }
  }

  ghost function Inverted(w: seq<bool>): (v: seq<bool>)
    ensures |v| == |w|
  {
    seq(|w|, i requires 0 <= i < |w| => !w[i])
  }

  lemma {:induction false} FromInverted(w: seq<bool>)
    ensures FromBits(Inverted(w)) == Pow2(|w|) - 1 - FromBits(w)
  {
    if w != [] {
      var front := w[..|w| - 1];
      FromInverted(front);
      assert Inverted(w)[..|w| - 1] == Inverted(front);
    }
  }

  /** Starting from all ones is starting from nothing with the first 32 bits inverted. */
  lemma StartInverts(w: seq<bool>, q: seq<bool>)
    requires |w| == 32
    ensures Register(INITIAL, w + q) == Register(0, Inverted(w) + q)
  {
    hide Register, Xor, Shifted, ToBits, FromBits, Inverted;
    Pow2Values();
    var a := FromBits(w);
    FromBitsBound(w);
    FromBitsBound(Inverted(w));
    FromInverted(w);
    ToFromBits(w);
    ToFromBits(Inverted(w));
    XorOnes(a, 32);
    XorZero(INITIAL - a);
    assert Pow2(0) == 1;
    RegisterIs(INITIAL, a, 32);
    RegisterIs(0, INITIAL - a, 32);
    RegisterAppend(INITIAL, w, q);
    RegisterAppend(0, Inverted(w), q);
  }

  /** A block with its own checksum after it leaves the same register whatever the block. */
  lemma Residue(t: seq<nat>, s: seq<Byte>)
    requires Divides(t)
    ensures Register(INITIAL, BytesToBits(s) + ToBits(Checksum(t, s), 32)) == Shifted(INITIAL, 32)
  {
    hide Register, Xor, Shifted, ToBits, Sum;
    Pow2Values();
    SumIsRegister(t, INITIAL, s);
    var r := Sum(t, INITIAL, s);
    RegisterAppend(INITIAL, BytesToBits(s), ToBits(INITIAL - r, 32));
    assert Pow2(0) == 1;
    RegisterIs(r, INITIAL - r, 32);
    XorOnes(INITIAL - r, 32);
    XorComm(INITIAL, INITIAL - r);
    XorUndone(INITIAL, INITIAL - r);
  }

  /** The same of a member, its checksum as the trailer holds it: lowest bit first. */
  lemma ResidueLow(t: seq<nat>, s: seq<Byte>)
    requires DividesLow(t)
    ensures RegisterLow(INITIAL, ByteBits(s) + LowBits(Finalise(SumLow(t, s)), 32)) == ShiftedLow(INITIAL, 32)
  {
    hide RegisterLow, Xor, ShiftedLow, LowBits, SumLow;
    Pow2Values();
    SumLowIsRegister(t, s);
    var r := SumLow(t, s);
    RegisterLowAppend(INITIAL, ByteBits(s), LowBits(INITIAL - r, 32));
    RegisterLowIs(r, INITIAL - r, 32);
    XorOnes(INITIAL - r, 32);
    XorUndone(INITIAL, INITIAL - r);
  }

  lemma StartInvertsLow(w: seq<bool>, q: seq<bool>)
    requires |w| == 32
    ensures RegisterLow(INITIAL, w + q) == RegisterLow(0, Inverted(w) + q)
  {
    hide RegisterLow, Xor, ShiftedLow, LowBits, FromLow, Inverted;
    Pow2Values();
    var a := FromLow(w);
    FromLowBound(w);
    FromLowBound(Inverted(w));
    FromLowInverted(w);
    LowBitsBack(w);
    LowBitsBack(Inverted(w));
    XorOnes(a, 32);
    XorZero(INITIAL - a);
    RegisterLowIs(INITIAL, a, 32);
    RegisterLowIs(0, INITIAL - a, 32);
    RegisterLowAppend(INITIAL, w, q);
    RegisterLowAppend(0, Inverted(w), q);
  }

  lemma {:induction false} FromLowInverted(w: seq<bool>)
    ensures FromLow(Inverted(w)) == Pow2(|w|) - 1 - FromLow(w)
  {
    if w != [] {
      FromLowInverted(w[1..]);
      assert Inverted(w)[1..] == Inverted(w[1..]);
    }
  }

  /** The two words are one polynomial, written from either end. */
  lemma Mirrored()
    ensures ToBits(POLY, 32) == LowBits(REFLECTED, 32)
  {
    hide ToBits, LowBits, Pow2;
    Pow2Values();
    ToBitsSplit(0x04c1, 0x1db7, 16, 16);
    LowBitsSplit(0x8320, 0xedb8, 16, 16);
    ToBitsSplit(0x04, 0xc1, 8, 8);
    LowBitsSplit(0x20, 0x83, 8, 8);
    ToBitsSplit(0x1d, 0xb7, 8, 8);
    LowBitsSplit(0xb8, 0xed, 8, 8);
    Nibbles();
    TwinBytes(0x0, 0x4, 0x0, 0x2);
    TwinBytes(0xc, 0x1, 0x3, 0x8);
    TwinBytes(0x1, 0xd, 0x8, 0xb);
    TwinBytes(0xb, 0x7, 0xd, 0xe);
  }

  lemma TwinBytes(h: nat, l: nat, h': nat, l': nat)
    requires h < 16 && l < 16 && h' < 16 && l' < 16 && ToBits(h, 4) == LowBits(h', 4) && ToBits(l, 4) == LowBits(l', 4)
    ensures ToBits(h * 16 + l, 8) == LowBits(h' + 16 * l', 8)
  {
    hide ToBits, LowBits;
    assert Pow2(4) == 16;
    ToBitsSplit(h, l, 4, 4);
    LowBitsSplit(h', l', 4, 4);
  }

  lemma Nibbles()
    ensures ToBits(0x0, 4) == LowBits(0x0, 4) && ToBits(0x4, 4) == LowBits(0x2, 4)
    ensures ToBits(0xc, 4) == LowBits(0x3, 4) && ToBits(0x1, 4) == LowBits(0x8, 4)
    ensures ToBits(0xd, 4) == LowBits(0xb, 4) && ToBits(0xb, 4) == LowBits(0xd, 4) && ToBits(0x7, 4) == LowBits(0xe, 4)
  {
    hide ToBits, LowBits;
    forall v: nat | v < 16
      ensures ToBits(v, 4) == [v / 8 % 2 == 1, v / 4 % 2 == 1, v / 2 % 2 == 1, v % 2 == 1]
      ensures LowBits(v, 4) == [v % 2 == 1, v / 2 % 2 == 1, v / 4 % 2 == 1, v / 8 % 2 == 1]
    {
      FourBits(v);
    }
  }

  lemma FourBits(v: nat)
    ensures ToBits(v, 4) == [v / 8 % 2 == 1, v / 4 % 2 == 1, v / 2 % 2 == 1, v % 2 == 1]
    ensures LowBits(v, 4) == [v % 2 == 1, v / 2 % 2 == 1, v / 4 % 2 == 1, v / 8 % 2 == 1]
  {
    var a, b, c := v / 2, v / 4, v / 8;
    assert b == a / 2 && c == b / 2;
    assert ToBits(b, 2) == [c % 2 == 1, b % 2 == 1];
    assert ToBits(a, 3) == [c % 2 == 1, b % 2 == 1, a % 2 == 1];
    assert LowBits(b, 2) == [b % 2 == 1, c % 2 == 1];
    assert LowBits(a, 3) == [a % 2 == 1, b % 2 == 1, c % 2 == 1];
  }

  /** Combining rotates the 32 bits by one place and adds the new sum bit by bit. */
  lemma CombineIs(x: nat, crc: nat)
    requires x < WORD && crc < WORD
    ensures Combine(x, crc) == Xor(x % TOP * 2 + x / TOP, crc)
    ensures ToBits(x % TOP * 2 + x / TOP, 32) == ToBits(x, 32)[1..] + ToBits(x, 32)[..1]
  {
    hide Or, Xor, ToBits;
    var top, low := x / TOP, x % TOP;
    Halves(x, top, low);
    Pow31();
    assert Pow2(1) == 2;
    OrIntoClear(low, top, 1);
    ToBitsSplit(top, low, 1, 31);
    ToBitsSplit(low, top, 31, 1);
  }

  /** No two histories of combined sums, and no two sums, are confused by the next step. */
  lemma CombineInjective(x: nat, y: nat, a: nat, b: nat)
    requires x < WORD && y < WORD && a < WORD && b < WORD && Combine(x, a) == Combine(y, b)
    ensures x == y <==> a == b
  {
    hide Xor, Combine, ToBits;
    CombineIs(x, a);
    CombineIs(y, b);
    var u, v := x % TOP * 2 + x / TOP, y % TOP * 2 + y / TOP;
    if x == y {
      XorComm(u, a);
      XorComm(u, b);
      XorInjective(a, b, u);
    }
    if a == b { XorInjective(u, v, a); }
  }
}
