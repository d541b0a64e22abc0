/** The bit stream of gzip: bytes taken in order, bits of a byte from the lowest up (libc/gzip.c:86-102, 161-207). */
module GzipBits {
  import opened Words
  import opened BitStream

  /** The n low bits of v, lowest first. */
  function LowBits(v: nat, n: nat): (b: seq<bool>)
    ensures |b| == n
  {
    if n == 0 then [] else [v % 2 == 1] + LowBits(v / 2, n - 1)
  }

  function FromLow(b: seq<bool>): nat {
    if b == [] then 0 else (if b[0] then 1 else 0) + 2 * FromLow(b[1..])
  }

  lemma {:induction false} FromLowBits(v: nat, n: nat)
    requires v < Pow2(n)
    ensures FromLow(LowBits(v, n)) == v
    decreases n
  {
    if n > 0 {
      FromLowBits(v / 2, n - 1);
      assert LowBits(v, n)[1..] == LowBits(v / 2, n - 1);
    }
  }

  lemma {:induction false} LowBitsBack(b: seq<bool>)
    ensures LowBits(FromLow(b), |b|) == b
  {
    if b != [] {
      LowBitsBack(b[1..]);
      LowBitsNext(FromLow(b), |b|);
    }
  }

  lemma {:induction false} FromLowBound(b: seq<bool>)
    ensures FromLow(b) < Pow2(|b|)
  {
    if b != [] { FromLowBound(b[1..]); }
  }

  lemma {:induction false} FromLowNext(b: seq<bool>, x: bool)
    ensures FromLow(b + [x]) == FromLow(b) + (if x then Pow2(|b|) else 0)
  {
    if b == [] {
      assert b + [x] == [x] && [x][1..] == [];
    } else {
      assert (b + [x])[1..] == b[1..] + [x];
      FromLowNext(b[1..], x);
    }
  }

  /** The low part, then the high part. */
  lemma {:induction false} LowBitsSplit(lo: nat, hi: nat, m: nat, k: nat)
    requires lo < Pow2(m)
    ensures LowBits(lo + Pow2(m) * hi, m + k) == LowBits(lo, m) + LowBits(hi, k)
    decreases m
  {
    if m == 0 {
      assert LowBits(lo, 0) + LowBits(hi, k) == LowBits(hi, k);
    } else {
      var x := Pow2(m - 1) * hi;
      assert Pow2(m) * hi == 2 * x by { MulAssoc(2, Pow2(m - 1), hi); }
      assert (lo + 2 * x) / 2 == lo / 2 + x && (lo + 2 * x) % 2 == lo % 2;
      LowBitsSplit(lo / 2, hi, m - 1, k);
    }
  }

  function ByteBits(s: seq<Byte>): (b: seq<bool>)
    ensures |b| == 8 * |s|
  {
    if s == [] then [] else LowBits(s[0], 8) + ByteBits(s[1..])
  }

  lemma {:induction false} ByteBitsAppend(s: seq<Byte>, t: seq<Byte>)
    ensures ByteBits(s + t) == ByteBits(s) + ByteBits(t)
  {
    hide LowBits;
    if s == [] {
      assert s + t == t;
    } else {
      ByteBitsAppend(s[1..], t);
      assert (s + t)[1..] == s[1..] + t && (s + t)[0] == s[0];
    }
  }

  lemma NextByteBits(s: seq<Byte>)
    requires s != []
    ensures ByteBits(s) == LowBits(s[0], 8) + ByteBits(s[1..])
  {
  }

  lemma NoByteBits()
    ensures ByteBits([]) == []
  {
  }

  /** Dropping the rest of a partly read byte. */
  function Aligned(z: seq<bool>): seq<bool> {
    z[|z| % 8..]
  }

  /** bit_stream over in_stream: the input still to be read, and the rest of the current byte. */
  class Source {
    var input: seq<Byte>
    var bitbuf: nat
    var bitcnt: nat

    ghost predicate Valid()
      reads this
    {
      bitcnt <= 7
    }

    /** The bits still to come. */
    ghost function Rest(): seq<bool>
      reads this
    {
      LowBits(bitbuf, bitcnt) + ByteBits(input)
    }

    constructor (bytes: seq<Byte>)
      ensures Valid() && Rest() == ByteBits(bytes) && bitcnt == 0
    {
      input, bitbuf, bitcnt := bytes, 0, 0;
      new;
      NothingBefore(ByteBits(bytes));
    }

    lemma Fields()
      ensures Valid() <==> bitcnt <= 7
      ensures Rest() == LowBits(bitbuf, bitcnt) + ByteBits(input)
      ensures |Rest()| == bitcnt + 8 * |input|
    {
    }

    /** bits_read_bit */
    method ReadBit() returns (ok: bool, b: nat)
      requires Valid()
      modifies this
      ensures Valid() && ok == (old(Rest()) != [])
      ensures ok ==> b == (if old(Rest())[0] then 1 else 0) && Rest() == old(Rest())[1..]
      ensures !ok ==> Rest() == old(Rest())
    {
      hide *;
      Fields();
      if bitcnt == 0 {
        if input == [] { return false, 0; }
        NextByteBits(input);
        NothingBefore(ByteBits(input));
        NoLowBits(bitbuf);
        bitbuf := input[0];
        bitcnt := 8;
        input := input[1..];
      }
      LowBitsNext(bitbuf, bitcnt);
      ghost var all := LowBits(bitbuf, bitcnt) + ByteBits(input);
      b := bitbuf % 2;
      FirstBitOff(bitbuf, bitcnt, ByteBits(input));
      bitbuf := bitbuf / 2;
      bitcnt := bitcnt - 1;
      ok := true;
      Fields();
    }

    /** bits_read */
    method Read(n: nat) returns (ok: bool, v: nat)
      requires Valid()
      modifies this
      ensures Valid() && ok == (n <= |old(Rest())|)
      ensures ok ==> v == FromLow(old(Rest())[..n]) && v < Pow2(n) && Rest() == old(Rest())[n..]
    {
      hide FromLow, Rest, Valid, Or, LowBits;
      ghost var z := Rest();
      v := 0;
      assert FromLow(z[..0]) == 0 by { NoLow(z[..0]); }
      for i := 0 to n
        invariant Valid() && i <= |z| && v == FromLow(z[..i]) && Rest() == z[i..]
      {
        var b;
        ok, b := ReadBit();
        if !ok { return; }
        FromLowBound(z[..i]);
        FromLowNext(z[..i], z[i]);
        assert z[..i + 1] == z[..i] + [z[i]];
        OrIntoClear(b, v, i);
        v := Or(v, b * Pow2(i));
      }
      FromLowBound(z[..n]);
      ok := true;
    }

    /** bits_align_byte */
    method Align()
      requires Valid()
      modifies this
      ensures Valid() && bitcnt == 0 && Rest() == Aligned(old(Rest()))
    {
      hide LowBits, ByteBits;
      NothingBefore(ByteBits(input));
      assert (8 * |input| + bitcnt) % 8 == bitcnt;
      assert (LowBits(bitbuf, bitcnt) + ByteBits(input))[bitcnt..] == ByteBits(input);
      bitbuf, bitcnt := 0, 0;
    }

    /** in_next_byte, between whole bytes. */
    method NextByte() returns (ok: bool, c: Byte)
      requires Valid() && bitcnt == 0
      modifies this
      ensures Valid() && bitcnt == 0 && ok == (8 <= |old(Rest())|)
      ensures ok ==> c == FromLow(old(Rest())[..8]) && Rest() == old(Rest())[8..]
      ensures !ok ==> Rest() == old(Rest())
    {
      hide LowBits, ByteBits, FromLow;
      NothingBefore(ByteBits(input));
      if input == [] {
        NoByteBits();
        return false, 0;
      }
      ghost var z := ByteBits(input);
      NextByteBits(input);
      Pow2Values();
      FromLowBits(input[0], 8);
      assert z[..8] == LowBits(input[0], 8) && z[8..] == ByteBits(input[1..]);
      ok, c := true, input[0];
      input := input[1..];
      NothingBefore(ByteBits(input));
    }
  }

  lemma NothingBefore(b: seq<bool>)
    ensures forall v :: LowBits(v, 0) + b == b
  {
  }

  lemma NoLowBits(v: nat)
    ensures LowBits(v, 0) == []
  {
  }

  lemma NoLow(b: seq<bool>)
    requires b == []
    ensures FromLow(b) == 0
  {
  }

  lemma LowBitsNext(v: nat, n: nat)
    requires n > 0
    ensures LowBits(v, n) == [v % 2 == 1] + LowBits(v / 2, n - 1)
  {
  }

  lemma FirstBitOff(v: nat, n: nat, rest: seq<bool>)
    requires n > 0
    ensures var z := LowBits(v, n) + rest; z[0] == (v % 2 == 1) && z[1..] == LowBits(v / 2, n - 1) + rest
  {
  }
}
