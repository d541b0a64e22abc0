/** Most-significant-bit-first bit streams: the encoder's bsW and the decoder's GET_BITS (libc/compress.c:36-97, libc/decompress.c:43-71). */
module BitStream {
  import opened Words

  /** The n low bits of v, most significant first. */
  function ToBits(v: nat, n: nat): (b: seq<bool>)
    ensures |b| == n
    decreases n
  {
    if n == 0 then [] else ToBits(v / 2, n - 1) + [v % 2 == 1]
  }

  function FromBits(b: seq<bool>): nat {
    if b == [] then 0 else 2 * FromBits(b[..|b| - 1]) + (if b[|b| - 1] then 1 else 0)
  }

  lemma {:induction false} FromToBits(v: nat, n: nat)
    requires v < Pow2(n)
    ensures FromBits(ToBits(v, n)) == v
    decreases n
  {
    if n > 0 {
      FromToBits(v / 2, n - 1);
      assert ToBits(v, n)[..n - 1] == ToBits(v / 2, n - 1);
    }
  }

  lemma {:induction false} FromBitsBound(b: seq<bool>)
    ensures FromBits(b) < Pow2(|b|)
  {
    if b != [] { FromBitsBound(b[..|b| - 1]); }
  }

  lemma {:induction false} ToFromBits(b: seq<bool>)
    ensures ToBits(FromBits(b), |b|) == b
  {
    if b != [] {
      ToFromBits(b[..|b| - 1]);
      assert b == b[..|b| - 1] + [b[|b| - 1]];
    }
  }

  /** A high part and a low part, side by side. */
  lemma {:induction false} ToBitsSplit(a: nat, c: nat, m: nat, k: nat)
    requires c < Pow2(k)
    ensures ToBits(a * Pow2(k) + c, m + k) == ToBits(a, m) + ToBits(c, k)
    decreases k
  {
    if k > 0 {
      Doubled(a, Pow2(k - 1));
      var x := a * Pow2(k - 1);
      assert (2 * x + c) / 2 == x + c / 2 && (2 * x + c) % 2 == c % 2;
      ToBitsSplit(a, c / 2, m, k - 1);
      assert ToBits(a, m) + ToBits(c, k) == ToBits(a, m) + ToBits(c / 2, k - 1) + [c % 2 == 1];
    }
  }

  function BytesToBits(s: seq<Byte>): (b: seq<bool>)
    ensures |b| == 8 * |s|
  {
    if s == [] then [] else ToBits(s[0], 8) + BytesToBits(s[1..])
  }

  lemma {:induction false} BytesToBitsAppend(s: seq<Byte>, t: seq<Byte>)
    ensures BytesToBits(s + t) == BytesToBits(s) + BytesToBits(t)
  {
    hide ToBits;
    if s == [] {
      assert s + t == t;
    } else {
      BytesToBitsAppend(s[1..], t);
      assert (s + t)[1..] == s[1..] + t && (s + t)[0] == s[0];
    }
  }

  // ---- writing ----

  /** A 32-bit buffer whose n top bits spell live: its top byte, and what is left when that is shifted out. */
  lemma TopByte(live: nat, n: nat, buff: nat) returns (q: Byte, r: nat)
    requires 8 <= n <= 32 && live < Pow2(n) && buff == live * Pow2(32 - n)
    ensures r < Pow2(n - 8) && buff / 0x100_0000 == q && buff * 256 % 0x1_0000_0000 == r * Pow2(40 - n)
    ensures ToBits(live, n) == ToBits(q, 8) + ToBits(r, n - 8)
  {
    hide *;
    var p := Pow2(n - 8);
    Pow2Values();
    Pow2Add(n - 8, 8);
    Pow2Add(n - 8, 32 - n);
    Pow2Add(32 - n, 8);
    SmallQuotient(live, p, 256);
    q, r := live / p, live % p;
    ToBitsSplit(q, r, 8, n - 8);
    BufferTop(q, r, p, Pow2(32 - n), live);
  }

  lemma BufferTop(q: nat, r: nat, p: nat, s: nat, live: nat)
    requires live == q * p + r && r < p && p * s == 0x100_0000 && s > 0
    ensures live * s / 0x100_0000 == q && live * s * 256 % 0x1_0000_0000 == r * (256 * s)
  {
    MulAssoc(q, p, s);
    assert live * s == q * p * s + r * s by { Spread(q * p, r, s); }
    assert r * s < p * s by { Scale(r + 1, p, s); Spread(r, 1, s); }
    Quotient(live * s, q, 0x100_0000, r * s);
    assert r * (256 * s) == 256 * (r * s) by { MulAssoc(r, 256, s); MulAssoc(256, r, s); }
    Quotient(live * s * 256, q, 0x1_0000_0000, 256 * (r * s));
  }

  /** The compressor's bit writer: the bytes already stored, and up to 32 bits pending at the top of bsBuff. */
  class BitWriter {
    var zbits: array<Byte>
    var numZ: nat
    var bsBuff: nat
    var bsLive: int
    ghost var live: nat

    ghost predicate Valid()
      reads this
    {
      && 0 <= bsLive <= 32 && live < Pow2(bsLive) && bsBuff == live * Pow2(32 - bsLive)
      && 8 * numZ + bsLive <= 8 * zbits.Length
    }

    /** Everything written so far. */
    ghost function Stream(): seq<bool>
      requires Valid()
      reads this, zbits
    {
      BytesToBits(zbits[..numZ]) + ToBits(live, bsLive)
    }

    constructor (buffer: array<Byte>)
      ensures Valid() && Stream() == [] && zbits == buffer
    {
      zbits, numZ, bsBuff, bsLive, live := buffer, 0, 0, 0, 0;
      new;
      assert BytesToBits(zbits[..0]) == [];
    }

    /** Store the top byte of the buffer. */
    method PutTop()
      requires Valid() && bsLive >= 8
      modifies this, zbits
      ensures Valid() && zbits == old(zbits) && bsLive == old(bsLive) - 8 && numZ == old(numZ) + 1
      ensures Stream() == old(Stream())
    {
      hide *;
      Needs();
      ghost var q, r := TopByte(live, bsLive, bsBuff);
      ghost var done := zbits[..numZ];
      zbits[numZ] := bsBuff / 0x100_0000;
      numZ := numZ + 1;
      bsBuff := bsBuff * 256 % 0x1_0000_0000;
      bsLive := bsLive - 8;
      live := r;
      assert zbits[..numZ] == done + [q];
      Stored(done, q);
      Holds();
      Regroup(BytesToBits(done), ToBits(q, 8), ToBits(r, bsLive));
    }

    lemma Needs()
      requires Valid()
      ensures 0 <= bsLive <= 32 && live < Pow2(bsLive) && bsBuff == live * Pow2(32 - bsLive)
      ensures 8 * numZ + bsLive <= 8 * zbits.Length
      ensures Stream() == BytesToBits(zbits[..numZ]) + ToBits(live, bsLive)
    {
    }

    lemma Holds()
      requires 0 <= bsLive <= 32 && live < Pow2(bsLive) && bsBuff == live * Pow2(32 - bsLive)
      requires 8 * numZ + bsLive <= 8 * zbits.Length
      ensures Valid() && Stream() == BytesToBits(zbits[..numZ]) + ToBits(live, bsLive)
    {
    }

    /** bsW: append the n bits of v. */
    method Put(n: nat, v: nat)
      requires Valid() && 1 <= n <= 24 && v < Pow2(n) && |Stream()| + n <= 8 * zbits.Length
      modifies this, zbits
      ensures Valid() && zbits == old(zbits) && Stream() == old(Stream()) + ToBits(v, n)
    {
      hide *;
      Needs();
      while bsLive >= 8
        invariant Valid() && zbits == old(zbits) && Stream() == old(Stream())
        decreases bsLive
      {
        PutTop();
      }
      Needs();
      ghost var a, m := live, bsLive;
      Inserted(a, v, m, n);
      bsBuff := Or(bsBuff, v * Pow2(32 - bsLive - n));
      bsLive := bsLive + n;
      live := a * Pow2(n) + v;
      Holds();
      Regroup(BytesToBits(zbits[..numZ]), ToBits(a, m), ToBits(v, n));
    }

    /** Start filling the byte buffer anew; the bits not yet in it are kept. */
    method Rewind() returns (ghost carried: seq<bool>)
      requires Valid()
      modifies this`numZ
      ensures Valid() && numZ == 0 && Stream() == carried && |carried| == bsLive
      ensures old(Stream()) == BytesToBits(old(zbits[..numZ])) + carried
    {
      carried := ToBits(live, bsLive);
      numZ := 0;
      assert BytesToBits(zbits[..0]) == [];
    }

    /** bsFinishWrite: flush, filling up the last byte with zero bits. */
    method Finish()
      requires Valid()
      modifies this, zbits
      ensures zbits == old(zbits) && numZ <= zbits.Length && -8 < bsLive <= 0
      ensures BytesToBits(zbits[..numZ]) == old(Stream()) + ToBits(0, -bsLive)
    {
      hide *;
      Needs();
      ghost var pad, k := WholeBytes(bsLive);
      ghost var n := bsLive + pad;
      ghost var a := Padded(live, bsLive, pad);
      Regroup(BytesToBits(zbits[..numZ]), ToBits(live, bsLive), ToBits(0, pad));
      while bsLive > 0
        invariant 0 <= n == bsLive + pad == 8 * k <= 32 && pad < 8 && a < Pow2(n) && bsBuff == a * Pow2(32 - n)
        invariant zbits == old(zbits) && numZ + k <= zbits.Length && -8 < bsLive
        invariant BytesToBits(zbits[..numZ]) + ToBits(a, n) == old(Stream()) + ToBits(0, pad)
        decreases bsLive
      {
        ghost var q, r := TopByte(a, n, bsBuff);
        ghost var done := zbits[..numZ];
        zbits[numZ] := bsBuff / 0x100_0000;
        numZ := numZ + 1;
        bsBuff := bsBuff * 256 % 0x1_0000_0000;
        bsLive := bsLive - 8;
        a, n, k := r, n - 8, k - 1;
        assert zbits[..numZ] == done + [q];
        Stored(done, q);
        Regroup(BytesToBits(done), ToBits(q, 8), ToBits(r, n));
      }
      assert n == 0;
      NothingAfter(BytesToBits(zbits[..numZ]));
      assert ToBits(a, n) == [];
    }
  }

  lemma Stored(done: seq<Byte>, q: Byte)
    ensures BytesToBits(done + [q]) == BytesToBits(done) + ToBits(q, 8)
  {
    hide ToBits;
    BytesToBitsAppend(done, [q]);
    assert ToBits(q, 8) + BytesToBits([]) == ToBits(q, 8);
  }

  /** Or-ing n bits in below the m live ones. */
  lemma Inserted(a: nat, v: nat, m: nat, n: nat)
    requires m + n <= 32 && a < Pow2(m) && v < Pow2(n)
    ensures a * Pow2(n) + v < Pow2(m + n)
    ensures Or(a * Pow2(32 - m), v * Pow2(32 - m - n)) == (a * Pow2(n) + v) * Pow2(32 - m - n)
    ensures ToBits(a * Pow2(n) + v, m + n) == ToBits(a, m) + ToBits(v, n)
  {
    hide *;
    var k := 32 - m - n;
    ToBitsSplit(a, v, m, n);
    Pow2Add(m, n);
    Pow2Add(n, k);
    Scale(a + 1, Pow2(m), Pow2(n));
    Spread(a, 1, Pow2(n));
    Scale(v + 1, Pow2(n), Pow2(k));
    Spread(v, 1, Pow2(k));
    OrIntoClear(a, v * Pow2(k), n + k);
    MulAssoc(a, Pow2(n), Pow2(k));
    Spread(a * Pow2(n), v, Pow2(k));
  }

  lemma WholeBytes(n: nat) returns (pad: nat, k: nat)
    ensures n + pad == 8 * k && pad < 8
  {
    k := (n + 7) / 8;
    pad := 8 * k - n;
  }

  lemma Padded(live: nat, m: nat, pad: nat) returns (a: nat)
    requires m + pad <= 32 && live < Pow2(m)
    ensures a < Pow2(m + pad) && live * Pow2(32 - m) == a * Pow2(32 - (m + pad))
    ensures ToBits(a, m + pad) == ToBits(live, m) + ToBits(0, pad)
  {
    hide *;
    a := live * Pow2(pad);
    ToBitsSplit(live, 0, m, pad);
    Pow2Add(m, pad);
    Pow2Add(pad, 32 - m - pad);
    MulAssoc(live, Pow2(pad), Pow2(32 - m - pad));
    Scale(live + 1, Pow2(m), Pow2(pad));
    Spread(live, 1, Pow2(pad));
  }

  // ---- reading ----

  /** Only the n low bits of v matter. */
  lemma {:induction false} ToBitsLow(a: nat, v: nat, k: nat, n: nat)
    requires n <= k
    ensures ToBits(a * Pow2(k) + v, n) == ToBits(v, n)
    decreases n
  {
    if n > 0 {
      Doubled(a, Pow2(k - 1));
      var x := a * Pow2(k - 1);
      assert (2 * x + v) / 2 == x + v / 2 && (2 * x + v) % 2 == v % 2;
      ToBitsLow(a, v / 2, k - 1, n - 1);
    }
  }

  /** The next byte shifted in at the bottom of a 32-bit buffer. */
  lemma ShiftedIn(buff: nat, n: nat, c: Byte)
    requires n + 8 <= 32
    ensures var x := Or(buff * 256 % 0x1_0000_0000, c);
            x < 0x1_0000_0000 && ToBits(x, n + 8) == ToBits(buff, n) + ToBits(c, 8)
  {
    hide *;
    Pow2Values();
    var h, l := buff / 0x100_0000, buff % 0x100_0000;
    assert buff == h * 0x100_0000 + l;
    assert buff * 256 % 0x1_0000_0000 == l * 256;
    OrIntoClear(l, c, 8);
    ToBitsSplit(buff, c, n, 8);
    ToBitsLow(h, l * 256 + c, 32, n + 8);
  }

  function Quo(x: nat, p: nat): nat
    requires p > 0
  {
    x / p
  }

  function Rem(x: nat, p: nat): (r: nat)
    requires p > 0
    ensures r < p
  {
    x % p
  }

  /** x >> k */
  function Shr(x: nat, k: nat): nat {
    Quo(x, Pow2(k))
  }

  /** x & (2^n - 1) */
  function Mask(x: nat, n: nat): (r: nat)
    ensures r < Pow2(n)
  {
    Rem(x, Pow2(n))
  }

  lemma ShrMask(x: nat, k: nat)
    ensures x == Shr(x, k) * Pow2(k) + Mask(x, k)
  {
    DivMod(x, Pow2(k));
  }

  lemma ShrNone(c: nat)
    ensures Shr(c, 0) == c
  {
  }

  /** n bits taken off the top of the bsLive low ones. */
  lemma TakenOff(buff: nat, m: nat, n: nat)
    requires n <= m
    ensures ToBits(buff, m) == ToBits(Shr(buff, m - n), n) + ToBits(buff, m - n)
    ensures Mask(Shr(buff, m - n), n) == FromBits(ToBits(buff, m)[..n])
  {
    hide *;
    var k := m - n;
    var q := Shr(buff, k);
    ShrMask(buff, k);
    ToBitsSplit(q, Mask(buff, k), n, k);
    ToBitsLow(q, Mask(buff, k), k, k);
    ShrMask(q, n);
    ToBitsLow(Shr(q, n), Mask(q, n), n, n);
    FromToBits(Mask(q, n), n);
    assert ToBits(buff, m)[..n] == ToBits(q, n);
  }

  /** The decompressor's bit reader: input bytes not yet taken, and bsLive bits at the bottom of bsBuff. */
  class BitReader {
    var input: seq<Byte>
    // the caller's further input buffers, one for each time the input runs out
    var later: seq<seq<Byte>>
    var bsBuff: nat
    var bsLive: nat

    ghost predicate Valid()
      reads this
    {
      bsBuff < 0x1_0000_0000 && bsLive <= 31
    }

    /** Everything still to be read. */
    ghost function Rest(): seq<bool>
      reads this
    {
      ToBits(bsBuff, bsLive) + BytesToBits(input + Joined(later))
    }

    constructor (bytes: seq<Byte>)
      ensures Valid() && Rest() == BytesToBits(bytes)
    {
      input, later, bsBuff, bsLive := bytes, [], 0, 0;
      assert bytes + Joined([]) == bytes;
    }

    /** The caller will have another buffer of input. */
    method Supply(bytes: seq<Byte>)
      requires Valid()
      modifies this
      ensures Valid() && Rest() == old(Rest()) + BytesToBits(bytes)
    {
      hide ToBits, BytesToBits, Joined;
      JoinedLast(later, bytes);
      Regroup(input, Joined(later), bytes);
      BytesToBitsAppend(input + Joined(later), bytes);
      Regroup(ToBits(bsBuff, bsLive), BytesToBits(input + Joined(later)), BytesToBits(bytes));
      later := later + [bytes];
    }

    /** The input has run out, and the caller comes back with the next buffer. */
    method NextBuffer()
      requires Valid() && input == [] && later != []
      modifies this`input, this`later
      ensures Valid() && Rest() == old(Rest()) && later == old(later)[1..]
    {
      hide ToBits, BytesToBits;
      assert input + Joined(later) == later[0] + Joined(later[1..]);
      input, later := later[0], later[1..];
    }

    /** One byte of input moves into the buffer of bits. */
    method TakeByte()
      requires Valid() && input != [] && bsLive < 24
      modifies this`input, this`bsBuff, this`bsLive
      ensures Valid() && Rest() == old(Rest()) && bsLive == old(bsLive) + 8
    {
      hide *;
      Fields();
      ghost var more := Joined(later);
      NextByte(input + more);
      TailOf(input, more);
      ShiftedIn(bsBuff, bsLive, input[0]);
      Regroup(ToBits(bsBuff, bsLive), ToBits(input[0], 8), BytesToBits(input[1..] + more));
      bsBuff := Or(bsBuff * 256 % 0x1_0000_0000, input[0]);
      bsLive := bsLive + 8;
      input := input[1..];
      Fields();
    }

    /**
     * GET_BITS: the next n bits as a number, read across the caller's buffers. It fails, with nothing lost, only when all
     * of them together hold fewer.
     */
    method Get(n: nat) returns (ok: bool, v: nat)
      requires Valid() && 1 <= n <= 24
      modifies this
      ensures Valid() && ok == (n <= |old(Rest())|)
      ensures ok ==> v == FromBits(old(Rest())[..n]) && v < Pow2(n) && Rest() == old(Rest())[n..]
      ensures !ok ==> Rest() == old(Rest())
    {
      hide *;
      while bsLive < n
        invariant Valid() && Rest() == old(Rest())
        decreases |later|, n - bsLive
      {
        if input != [] {
          TakeByte();
        } else if later != [] {
          NextBuffer();
        } else {
          NoneLeft();
          return false, 0;
        }
      }
      Fields();
      ghost var z := old(Rest());
      TakenOff(bsBuff, bsLive, n);
      assert z[..n] == ToBits(bsBuff, bsLive)[..n];
      v := Mask(Shr(bsBuff, bsLive - n), n);
      bsLive := bsLive - n;
      ok := true;
      Fields();
      assert z[n..] == ToBits(bsBuff, bsLive) + BytesToBits(input + Joined(later));
    }

    lemma NoneLeft()
      requires input == [] && later == []
      ensures |Rest()| == bsLive
    {
      assert input + Joined(later) == [];
    }

    lemma Fields()
      ensures Valid() <==> bsBuff < 0x1_0000_0000 && bsLive <= 31
      ensures Rest() == ToBits(bsBuff, bsLive) + BytesToBits(input + Joined(later))
    {
    }
  }

  lemma TailOf(s: seq<Byte>, more: seq<Byte>)
    requires s != []
    ensures (s + more)[0] == s[0] && (s + more)[1..] == s[1..] + more
  {
  }

  lemma NoBits()
    ensures BytesToBits([]) == []
  {
  }

  lemma NextByte(s: seq<Byte>)
    requires s != []
    ensures BytesToBits(s) == ToBits(s[0], 8) + BytesToBits(s[1..])
  {
  }
}
