/** Buffering and padding of the hashes: MD5, SHA-1, SHA-256 and SHA-512 (libc/checksum.c:161-204, 299-342, 450-493, 583-690). */
module StreamingHash {
  import opened Words
  import opened BitStream
  import opened Endian

  // ---- what a hash is ----

  /** The compression function over the whole blocks of a message, in order. */
  ghost function Fold<H>(f: (H, seq<Byte>) -> H, h: H, size: nat, m: seq<Byte>): H
    requires size > 0
    decreases |m|
  {
    if |m| < size then h else Fold(f, f(h, m[..size]), size, m[size..])
  }

  lemma {:induction false} FoldAppend<H>(f: (H, seq<Byte>) -> H, h: H, size: nat, a: seq<Byte>, b: seq<Byte>)
    requires size > 0 && |a| % size == 0
    ensures Fold(f, h, size, a + b) == Fold(f, Fold(f, h, size, a), size, b)
    decreases |a|
  {
    if |a| < size {
      assert |a| == 0 by { SmallMod(|a|, size); }
      assert a + b == b;
    } else {
      assert (a + b)[..size] == a[..size] && (a + b)[size..] == a[size..] + b;
      assert |a[size..]| % size == 0 by { ModBack(|a|, size); }
      FoldAppend(f, f(h, a[..size]), size, a[size..], b);
    }
  }

  lemma SmallMod(n: nat, size: nat)
    requires n < size && n % size == 0
    ensures n == 0
  {
    Quotient(n, 0, size, n);
  }

  lemma ModBack(n: nat, size: nat)
    requires 0 < size <= n && n % size == 0
    ensures (n - size) % size == 0
  {
    DivMod(n, size);
    var q := n / size;
    assert n - size == (q - 1) * size by { Spread(q, -1, size); }
    Quotient(n - size, q - 1, size, 0);
  }

  lemma ModOn(n: nat, size: nat)
    requires 0 < size && n % size == 0
    ensures (n + size) % size == 0
  {
    DivMod(n, size);
    var q := n / size;
    assert n + size == (q + 1) * size by { Spread(q, 1, size); }
    Quotient(n + size, q + 1, size, 0);
  }

  /** One more block. */
  lemma FoldBlock<H>(f: (H, seq<Byte>) -> H, h: H, size: nat, a: seq<Byte>, b: seq<Byte>)
    requires size > 0 && |a| % size == 0 && |b| == size
    ensures Fold(f, h, size, a + b) == f(Fold(f, h, size, a), b)
  {
    FoldAppend(f, h, size, a, b);
    assert b[..size] == b && b[size..] == [];
  }

  /** A message padded by one set bit, the fewest zero bytes, and a length field, to whole blocks. */
  ghost predicate Padded(p: seq<Byte>, m: seq<Byte>, size: nat, field: seq<Byte>)
    requires size > 0
  {
    exists k :: 0 <= k < size && p == m + [0x80] + Copies(0, k) + field && |p| % size == 0
  }

  /** Section 5.1 of FIPS 180-4 and sections 3.1 and 3.2 of RFC 1321 leave no choice: there is exactly one padding. */
  lemma PaddedOnce(p: seq<Byte>, q: seq<Byte>, m: seq<Byte>, size: nat, field: seq<Byte>)
    requires size > 0 && Padded(p, m, size, field) && Padded(q, m, size, field)
    ensures p == q
  {
    var j :| 0 <= j < size && p == m + [0x80] + Copies(0, j) + field && |p| % size == 0;
    var k :| 0 <= k < size && q == m + [0x80] + Copies(0, k) + field && |q| % size == 0;
    if j < k { SameBlocks(|p|, |q|, size); } else if k < j { SameBlocks(|q|, |p|, size); }
  }

  lemma SameBlocks(a: nat, b: nat, size: nat)
    requires 0 < size && a <= b < a + size && a % size == 0 && b % size == 0
    ensures a == b
  {
    DivMod(a, size);
    var q := a / size;
    Quotient(b, q, size, b - a);
  }

  /** How many zero bytes that takes. */
  ghost function Gap(n: nat, size: nat, field: nat): (k: nat)
    requires size > 0
    ensures k < size && (n + 1 + k + field) % size == 0
  {
    var r := (n + 1 + field) % size;
    DivMod(n + 1 + field, size);
    var q := (n + 1 + field) / size;
    if r == 0 then 0
    else
      Spread(q, 1, size);
      Quotient(n + 1 + (size - r) + field, q + 1, size, 0);
      size - r
  }

  ghost function Pad(m: seq<Byte>, size: nat, field: seq<Byte>): (p: seq<Byte>)
    requires size > 0
    ensures Padded(p, m, size, field)
  {
    var p := m + [0x80] + Copies(0, Gap(|m|, size, |field|)) + field;
    assert |p| == |m| + 1 + Gap(|m|, size, |field|) + |field|;
    p
  }

  // ---- the block buffer ----

  class Buffer<H> {
    const f: (H, seq<Byte>) -> H
    const size: nat
    const buf: array<Byte>
    var h: H
    var blen: nat
    ghost const iv: H
    ghost var whole: seq<Byte>

    /** Everything up to the buffer has gone through the compression function; the buffer may just have become full. */
    ghost predicate Open()
      reads this
    {
      size > 0 && buf.Length == size && blen <= size && |whole| % size == 0 && h == Fold(f, iv, size, whole)
    }

    ghost predicate Valid()
      reads this
    {
      Open() && blen < size
    }

    /** All bytes taken so far. */
    ghost function Message(): seq<Byte>
      requires Open()
      reads this, buf
    {
      whole + buf[..blen]
    }

    constructor (compress: (H, seq<Byte>) -> H, start: H, blockSize: nat)
      requires blockSize > 0
      ensures Valid() && Message() == [] && f == compress && iv == start && size == blockSize && fresh(buf)
    {
      f, iv, h, size, blen, whole := compress, start, start, blockSize, 0, [];
      buf := new Byte[blockSize];
    }

    method Put(b: Byte)
      requires Valid()
      modifies this`blen, buf
      ensures Open() && blen == old(blen) + 1 && Message() == old(Message()) + [b]
    {
      hide Fold;
      ghost var was := buf[..blen];
      buf[blen] := b;
      blen := blen + 1;
      assert buf[..blen] == was + [b];
      Regroup(whole, was, [b]);
    }

    /** The full buffer is compressed. */
    method Compress()
      requires Open() && blen == size
      modifies this
      ensures Valid() && blen == 0 && Message() == old(Message())
    {
      hide Fold;
      FoldBlock(f, iv, size, whole, buf[..]);
      ModOn(|whole|, size);
      h := f(h, buf[..]);
      blen := 0;
      whole := whole + buf[..];
      assert buf[..size] == buf[..] && whole + buf[..0] == whole;
    }

    method Absorb(p: seq<Byte>)
      requires Valid() && |p| + size <= INT_MAX
      modifies this, buf
      ensures Valid() && Message() == old(Message()) + p
    {
      hide Fold;
      ghost var m := Message();
      var i := 0;
      assert m + p[..0] == m;
      if blen != 0 {
        while i < |p| && blen < size
          invariant Open() && 0 <= i <= |p| && Message() == m + p[..i]
        {
          TakeOne(m, p, i);
          Put(p[i]);
          i := i + 1;
        }
        if blen == size { Compress(); }
      }
      assert Valid() && (blen == 0 || i == |p|);
      i := Direct(m, p, i);
      while i < |p|
        invariant Valid() && 0 <= i <= |p| && |p| - i < size - blen && Message() == m + p[..i]
      {
        TakeOne(m, p, i);
        Put(p[i]);
        i := i + 1;
      }
      assert p[..i] == p;
    }

    /** Whole blocks of the input go to the compression function without being copied. */
    method Direct(ghost m: seq<Byte>, p: seq<Byte>, from: nat) returns (i: nat)
      requires Valid() && from <= |p| && (blen == 0 || from == |p|) && Message() == m + p[..from] && |p| + size <= INT_MAX
      modifies this
      ensures Valid() && blen == old(blen) && i <= |p| && |p| - i < size - blen && Message() == m + p[..i]
    {
      hide Fold;
      i := from;
      while i + size <= |p|
        invariant Valid() && blen == old(blen) && from <= i <= |p| && (blen == 0 || i == |p|) && Message() == m + p[..i]
        invariant i + size <= INT_MAX
      {
        ghost var blk := p[i..i + size];
        FoldBlock(f, iv, size, whole, blk);
        ModOn(|whole|, size);
        h := f(h, p[i..i + size]);
        assert p[..i + size] == p[..i] + blk;
        assert whole == m + p[..i] by { assert whole + buf[..0] == whole; }
        Regroup(m, p[..i], blk);
        whole := whole + blk;
        assert whole + buf[..0] == whole;
        i := i + size;
      }
    }

    /** Zeros up to some place in the buffer. */
    method ZeroTo(limit: nat, ghost start: seq<Byte>, ghost k: nat)
      requires Open() && blen <= limit <= size && Message() == start + Copies(0, k)
      modifies this`blen, buf
      ensures Open() && blen == limit && Message() == start + Copies(0, k + limit - old(blen))
    {
      hide Fold, Copies;
      while blen < limit
        invariant Open() && old(blen) <= blen <= limit && Message() == start + Copies(0, k + blen - old(blen))
      {
        ZeroMore(start, k + blen - old(blen));
        Put(0);
      }
    }

    method PutAll(field: seq<Byte>)
      requires Open() && blen + |field| <= size
      modifies this`blen, buf
      ensures Open() && blen == old(blen) + |field| && Message() == old(Message()) + field
    {
      hide Fold;
      ghost var m := Message();
      assert m + field[..0] == m;
      for i := 0 to |field|
        invariant Open() && blen == old(blen) + i && Message() == m + field[..i]
      {
        TakeOne(m, field, i);
        Put(field[i]);
      }
      assert field[..|field|] == field;
    }

    /** Padding: a set bit, zeros up to the place of the length field, and in between a block more when it does not fit. */
    method Finish(field: seq<Byte>)
      requires Valid() && |field| < size
      modifies this, buf
      ensures Valid() && blen == 0 && h == Fold(f, iv, size, Pad(old(Message()), size, field))
    {
      hide Fold, Copies, Pad;
      ghost var m, used, k := Message(), blen + 1, 0;
      ghost var start := m + [0x80];
      NoZeros(start);
      Put(0x80);
      if blen > size - |field| {
        ZeroTo(size, start, 0);
        k := size - used;
        Compress();
      }
      k := k + size - |field| - blen;
      ZeroTo(size - |field|, start, k - (size - |field| - blen));
      PutAll(field);
      FullBlocks(Message(), m, size, field, k);
      Compress();
      assert whole + buf[..0] == whole;
    }

    lemma FullBlocks(p: seq<Byte>, m: seq<Byte>, blockSize: nat, field: seq<Byte>, k: nat)
      requires Open() && blen == size == blockSize && p == Message() && k < size && p == m + [0x80] + Copies(0, k) + field
      ensures p == Pad(m, blockSize, field)
    {
      hide Fold, Pad, Copies;
      ModOn(|whole|, size);
      PaddedHere(p, m, size, field, k);
    }
  }

  lemma PaddedHere(p: seq<Byte>, m: seq<Byte>, size: nat, field: seq<Byte>, k: nat)
    requires 0 < size && k < size && p == m + [0x80] + Copies(0, k) + field && |p| % size == 0
    ensures p == Pad(m, size, field)
  {
    PaddedOnce(p, Pad(m, size, field), m, size, field);
  }

  lemma NoZeros(start: seq<Byte>)
    ensures start + Copies(0, 0) == start
  {
  }

  lemma TakeOne(m: seq<Byte>, p: seq<Byte>, i: nat)
    requires i < |p|
    ensures m + p[..i] + [p[i]] == m + p[..i + 1]
  {
    assert p[..i + 1] == p[..i] + [p[i]];
  }

  lemma ZeroMore(start: seq<Byte>, k: nat)
    ensures start + Copies(0, k) + [0] == start + Copies(0, k + 1)
  {
    assert Copies(0, k + 1) == Copies(0, k) + [0];
  }

  // ---- MD5, SHA-1 and SHA-256: a 64-bit count ----

  const TWO64 := 0x1_0000_0000_0000_0000

  /** The length of an update, and the places in it, are ints. */
  const INT_MAX := 0x7fff_ffff

  /** The length field: the number of bits, modulo 2^64. */
  ghost function ShortField(little: bool, n: nat): (s: seq<Byte>)
    ensures |s| == 8 && (if little then Little(s) else Big(s)) == 8 * n % TWO64
  {
    var v := 8 * n % TWO64;
    Pow2Of64();
    LittleBack(v, 8);
    BigBack(v, 8);
    if little then LittleBytes(v, 8) else BigBytes(v, 8)
  }

  lemma Pow2Of64()
    ensures Pow2(64) == TWO64
  {
    Pow2Values();
    Pow2Add(32, 32);
  }

  ghost function ShortHash<H>(f: (H, seq<Byte>) -> H, iv: H, little: bool, m: seq<Byte>): H {
    Fold(f, iv, 64, Pad(m, 64, ShortField(little, |m|)))
  }

  class ShortContext<H> {
    const buffer: Buffer<H>
    const little: bool
    var total: nat

    ghost predicate Valid()
      reads this, buffer, buffer.buf
    {
      buffer.Valid() && buffer.size == 64 && total == |buffer.Message()| % TWO64
    }

    constructor (compress: (H, seq<Byte>) -> H, start: H, order: bool)
      ensures Valid() && fresh(buffer) && fresh(buffer.buf) && buffer.Message() == []
      ensures buffer.f == compress && buffer.iv == start && little == order
    {
      buffer := new Buffer(compress, start, 64);
      little, total := order, 0;
    }

    method Update(p: seq<Byte>)
      requires Valid() && |p| <= INT_MAX - 64
      modifies this, buffer, buffer.buf
      ensures Valid() && buffer.Message() == old(buffer.Message()) + p
    {
      hide Fold;
      CountOn(|buffer.Message()|, |p|);
      total := (total + |p|) % TWO64;
      buffer.Absorb(p);
    }

    method Final()
      requires Valid()
      modifies this, buffer, buffer.buf
      ensures buffer.h == ShortHash(buffer.f, buffer.iv, little, old(buffer.Message()))
    {
      hide Fold, Pad, Little, Big;
      BitCount(|buffer.Message()|);
      var field := FieldBytes(little, total * 8 % TWO64);
      buffer.Finish(field);
    }
  }

  /** Eight bytes of a count, shifted out one by one. */
  method FieldBytes(little: bool, bits: nat) returns (s: seq<Byte>)
    ensures s == if little then LittleBytes(bits, 8) else BigBytes(bits, 8)
  {
    hide Shr, LittleBytes, BigBytes;
    s := [];
    ghost var all := if little then LittleBytes(bits, 8) else BigBytes(bits, 8);
    for i := 0 to 8
      invariant s == all[..i]
    {
      LittleAt(bits, 8, i);
      BigAt(bits, 8, i);
      s := s + [Shr(bits, if little then 8 * i else 56 - 8 * i) % 256];
    }
  }

  lemma CountOn(n: nat, k: nat)
    ensures (n % TWO64 + k) % TWO64 == (n + k) % TWO64
  {
  }

  lemma BitCount(n: nat)
    ensures n % TWO64 * 8 % TWO64 == 8 * n % TWO64
  {
  }

  /** However a message is split into updates, its blocks are those of the padded whole message. */
  method HashShort<H>(f: (H, seq<Byte>) -> H, iv: H, little: bool, chunks: seq<seq<Byte>>) returns (h: H)
    requires forall i :: 0 <= i < |chunks| ==> |chunks[i]| <= INT_MAX - 64
    ensures h == ShortHash(f, iv, little, Joined(chunks))
  {
    hide ShortHash;
    var c := new ShortContext(f, iv, little);
    for i := 0 to |chunks|
      invariant c.Valid() && c.buffer.Message() + Joined(chunks[i..]) == Joined(chunks)
      invariant fresh(c) && fresh(c.buffer) && fresh(c.buffer.buf)
    {
      Regroup(c.buffer.Message(), chunks[i], Joined(chunks[i + 1..]));
      assert chunks[i..][1..] == chunks[i + 1..];
      c.Update(chunks[i]);
    }
    assert c.buffer.Message() + [] == c.buffer.Message();
    c.Final();
    h := c.buffer.h;
  }

  // ---- SHA-512: a 128-bit count in two words ----

  const TWO61 := 0x2000_0000_0000_0000
  const TWO128 := 0x1_0000_0000_0000_0000_0000_0000_0000_0000

  /** The number of bits modulo 2^128, most significant byte first. */
  ghost function LongField(n: nat): (s: seq<Byte>)
    ensures |s| == 16 && Big(s) == 8 * n % TWO128
  {
    var v := 8 * n % TWO128;
    Pow2Of64();
    Pow2Add(64, 64);
    BigBack(v, 16);
    BigBytes(v, 16)
  }

  ghost function LongHash<H>(f: (H, seq<Byte>) -> H, iv: H, m: seq<Byte>): H {
    Fold(f, iv, 128, Pad(m, 128, LongField(|m|)))
  }

  class LongContext<H> {
    const buffer: Buffer<H>
    var totalHi: nat
    var totalLo: nat

    ghost predicate Valid()
      reads this, buffer, buffer.buf
    {
      buffer.Valid() && buffer.size == 128 && Counted(totalHi, totalLo, |buffer.Message()|)
    }

    constructor (compress: (H, seq<Byte>) -> H, start: H)
      ensures Valid() && fresh(buffer) && fresh(buffer.buf) && buffer.Message() == []
      ensures buffer.f == compress && buffer.iv == start
    {
      buffer := new Buffer(compress, start, 128);
      totalHi, totalLo := 0, 0;
    }

    /** sha512_add_len */
    method AddLen(add: nat, ghost n: nat)
      requires Counted(totalHi, totalLo, n) && add < TWO64
      modifies this
      ensures Counted(totalHi, totalLo, n + add)
    {
      hide Counted;
      Carry(totalHi, totalLo, n, add);
      var was := totalLo;
      totalLo := (totalLo + add) % TWO64;
      if totalLo < was { totalHi := (totalHi + 1) % TWO64; }
    }

    method Update(p: seq<Byte>)
      requires Valid() && |p| <= INT_MAX - 128
      modifies this, buffer, buffer.buf
      ensures Valid() && buffer.Message() == old(buffer.Message()) + p
    {
      hide Fold, Counted;
      AddLen(|p|, |buffer.Message()|);
      buffer.Absorb(p);
    }

    method Final()
      requires Valid()
      modifies this, buffer, buffer.buf
      ensures buffer.h == LongHash(buffer.f, buffer.iv, old(buffer.Message()))
    {
      hide Fold, Pad, Big, BigBytes, Or, Counted, LongField;
      ghost var n := |buffer.Message()|;
      LongBits(totalHi, totalLo, n);
      var hi, lo := Or(totalHi * 8 % TWO64, totalLo / TWO61), totalLo * 8 % TWO64;
      LongFieldIs(hi, lo, n);
      var high := FieldBytes(false, hi);
      var low := FieldBytes(false, lo);
      buffer.Finish(high + low);
    }
  }

  ghost predicate Counted(hi: nat, lo: nat, n: nat) {
    hi < TWO64 && lo < TWO64 && hi * TWO64 + lo == n % TWO128
  }

  /** The carry is seen from the low word having wrapped around. */
  lemma SumModulo(lo: nat, add: nat)
    requires lo < TWO64 && add < TWO64
    ensures (lo + add) % TWO64 == if lo + add < TWO64 then lo + add else lo + add - TWO64
  {
    if lo + add < TWO64 { Quotient(lo + add, 0, TWO64, lo + add); } else { Quotient(lo + add, 1, TWO64, lo + add - TWO64); }
  }

  lemma Carry(hi: nat, lo: nat, n: nat, add: nat)
    requires Counted(hi, lo, n) && add < TWO64
    ensures var lo' := (lo + add) % TWO64; Counted(if lo' < lo then (hi + 1) % TWO64 else hi, lo', n + add)
  {
    var k, sum := n / TWO128, lo + add;
    SumModulo(lo, add);
    if sum < TWO64 {
      Quotient(n + add, k, TWO128, hi * TWO64 + sum);
    } else if hi + 1 < TWO64 {
      Quotient(n + add, k, TWO128, (hi + 1) * TWO64 + (sum - TWO64));
    } else {
      Quotient(n + add, k + 1, TWO128, sum - TWO64);
    }
  }

  lemma LongBits(hi: nat, lo: nat, n: nat)
    requires Counted(hi, lo, n)
    ensures var bitHi, bitLo := Or(hi * 8 % TWO64, lo / TWO61), lo * 8 % TWO64;
            bitHi < TWO64 && bitLo < TWO64 && bitHi * TWO64 + bitLo == 8 * n % TWO128
  {
    hide Or;
    var k, t, q, y, r := n / TWO128, hi / TWO61, hi % TWO61, lo / TWO61, lo % TWO61;
    Quotient(hi * 8, t, TWO64, q * 8);
    Quotient(lo * 8, y, TWO64, r * 8);
    assert Pow2(3) == 8;
    OrIntoClear(q, y, 3);
    Quotient(8 * n, 8 * k + t, TWO128, (8 * q + y) * TWO64 + 8 * r);
  }

  lemma {:induction false} BigSplit(hi: nat, lo: nat, n: nat)
    requires lo < Pow2(8 * n)
    ensures BigBytes(hi * Pow2(8 * n) + lo, 8 + n) == BigBytes(hi, 8) + BigBytes(lo, n)
    decreases n
  {
    hide Pow2, BigBytes;
    if n == 0 {
      BigStart(hi, lo);
      NothingAfter(BigBytes(hi, 8));
    } else {
      LastByte(hi, lo, n);
      BigSplit(hi, lo / 256, n - 1);
      BigStep(hi * Pow2(8 * n) + lo, hi * Pow2(8 * (n - 1)) + lo / 256, lo, BigBytes(hi, 8), n);
    }
  }

  lemma BigStart(hi: nat, lo: nat)
    requires lo < Pow2(8 * 0)
    ensures hi * Pow2(8 * 0) + lo == hi && BigBytes(lo, 0) == []
  {
  }

  lemma BigStep(v: nat, v': nat, lo: nat, high: seq<Byte>, n: nat)
    requires n > 0 && v / 256 == v' && v % 256 == lo % 256 && BigBytes(v', 7 + n) == high + BigBytes(lo / 256, n - 1)
    ensures BigBytes(v, 8 + n) == high + BigBytes(lo, n)
  {
    Regroup(high, BigBytes(lo / 256, n - 1), [lo % 256]);
  }

  lemma LastByte(hi: nat, lo: nat, n: nat)
    requires n > 0 && lo < Pow2(8 * n)
    ensures var v := hi * Pow2(8 * n) + lo;
            v / 256 == hi * Pow2(8 * (n - 1)) + lo / 256 && v % 256 == lo % 256 && lo / 256 < Pow2(8 * (n - 1))
  {
    hide Pow2;
    var p := Pow2(8 * (n - 1));
    Pow2Add(8, 8 * (n - 1));
    Pow2Values();
    SmallQuotient(lo, 256, p);
    MulAssoc(hi, 256, p);
    Spread(hi * p, lo / 256, 256);
    assert hi * Pow2(8 * n) == (hi * p) * 256 by { MulAssoc(hi, p, 256); }
    Quotient(hi * Pow2(8 * n) + lo, hi * p + lo / 256, 256, lo % 256);
  }

  lemma LongFieldIs(hi: nat, lo: nat, n: nat)
    requires hi < TWO64 && lo < TWO64 && hi * TWO64 + lo == 8 * n % TWO128
    ensures BigBytes(hi, 8) + BigBytes(lo, 8) == LongField(n)
  {
    hide BigBytes, Big;
    Pow2Of64();
    BigSplit(hi, lo, 8);
    LongFieldOf(n);
  }

  lemma LongFieldOf(n: nat)
    ensures LongField(n) == BigBytes(8 * n % TWO128, 16)
  {
  }

  method HashLong<H>(f: (H, seq<Byte>) -> H, iv: H, chunks: seq<seq<Byte>>) returns (h: H)
    requires forall i :: 0 <= i < |chunks| ==> |chunks[i]| <= INT_MAX - 128
    ensures h == LongHash(f, iv, Joined(chunks))
  {
    hide LongHash;
    var c := new LongContext(f, iv);
    for i := 0 to |chunks|
      invariant c.Valid() && c.buffer.Message() + Joined(chunks[i..]) == Joined(chunks)
      invariant fresh(c) && fresh(c.buffer) && fresh(c.buffer.buf)
    {
      Regroup(c.buffer.Message(), chunks[i], Joined(chunks[i + 1..]));
      assert chunks[i..][1..] == chunks[i + 1..];
      c.Update(chunks[i]);
    }
    assert c.buffer.Message() + [] == c.buffer.Message();
    c.Final();
    h := c.buffer.h;
  }
}
