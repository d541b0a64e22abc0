/** Compressing a block: sort, move to front, code (libc/compress.c:597-662). */
module CompressBlock {
  import opened Words
  import opened Counting
  import opened Rotations
  import opened BitStream
  import opened CanonicalCode
  import opened MoveToFront
  import opened MtfCoding
  import opened MtfEncoder
  import opened BlockFormat
  import opened BlockData
  import opened TableChoice
  import opened SendValues
  import opened SendBlock
  import opened InverseBwt
  import opened RunLength
  import opened Crc
  import opened BlockOutput
  import opened Stream
  import opened BlockBuilder
  import BlockSort

  // ---- header fields ----

  method PutBytes(w: BitWriter, bytes: seq<Byte>)
    requires w.Valid() && |w.Stream()| + 8 * |bytes| <= 8 * w.zbits.Length
    modifies w, w.zbits
    ensures w.Valid() && w.zbits == old(w.zbits) && w.Stream() == old(w.Stream()) + BytesToBits(bytes)
  {
    hide BitWriter.Valid, BitWriter.Stream, ToBits, BytesToBits;
    ghost var was := w.Stream();
    assert bytes[..0] == [];
    NoBits();
    for i := 0 to |bytes|
      invariant w.Valid() && w.zbits == old(w.zbits) && w.Stream() == was + BytesToBits(bytes[..i]) && |BytesToBits(bytes[..i])| == 8 * i
    {
      Pow2Values();
      w.Put(8, bytes[i]);
      Stored(bytes[..i], bytes[i]);
      assert bytes[..i + 1] == bytes[..i] + [bytes[i]];
    }
    assert bytes[..|bytes|] == bytes;
  }

  lemma Digits(u: nat)
    requires u < 0x1_0000_0000
    ensures u / 0x100_0000 < 256 && u == u / 0x100 * 256 + u % 256
    ensures u / 0x100 == u / 0x1_0000 * 256 + u / 0x100 % 256
    ensures u / 0x1_0000 == u / 0x100_0000 * 256 + u / 0x1_0000 % 256
  {
    assert u / 0x100 / 256 == u / 0x1_0000 && u / 0x1_0000 / 256 == u / 0x100_0000;
  }

  lemma WordBytes(u: nat)
    requires u < 0x1_0000_0000
    ensures var a, b, c, d := u / 0x100_0000, u / 0x1_0000 % 256, u / 0x100 % 256, u % 256;
            a < 256 && BytesToBits([a, b, c, d]) == ToBits(u, 32)
  {
    hide *;
    var a, b, c, d := u / 0x100_0000, u / 0x1_0000 % 256, u / 0x100 % 256, u % 256;
    Pow2Values();
    var x, y := u / 0x1_0000, u / 0x100;
    Digits(u);
    ToBitsSplit(y, d, 24, 8);
    ToBitsSplit(x, c, 16, 8);
    ToBitsSplit(a, b, 8, 8);
    NoBits();
    Stored([], a);
    Stored([a], b);
    Stored([a, b], c);
    Stored([a, b, c], d);
    assert [a] == [] + [a] && [a] + [b] == [a, b] && [a, b] + [c] == [a, b, c] && [a, b, c] + [d] == [a, b, c, d];
    assert [] + ToBits(a, 8) == ToBits(a, 8);
  }

  /** bsPutUInt32 */
  method PutWord(w: BitWriter, u: nat)
    requires w.Valid() && u < 0x1_0000_0000 && |w.Stream()| + 32 <= 8 * w.zbits.Length
    modifies w, w.zbits
    ensures w.Valid() && w.zbits == old(w.zbits) && w.Stream() == old(w.Stream()) + ToBits(u, 32)
  {
    hide BitWriter.Valid, BitWriter.Stream, ToBits, BytesToBits;
    WordBytes(u);
    PutBytes(w, [u / 0x100_0000, u / 0x1_0000 % 256, u / 0x100 % 256, u % 256]);
  }

  // ---- sorting and ranking ----

  /** The pointers as pairs of 16-bit halves: the same memory, seen as mtfv. */
  method SplitHalves(ptr: array<int>, n: nat) returns (arr1: array<int>)
    requires n <= ptr.Length && forall i :: 0 <= i < n ==> 0 <= ptr[i] < n
    ensures fresh(arr1) && arr1.Length == 2 * n && Ptr(arr1[..], n) == ptr[..n]
  {
    arr1 := new int[2 * n];
    for i := 0 to n
      invariant forall k :: 0 <= k < i ==> arr1[2 * k] + 65536 * arr1[2 * k + 1] == ptr[k]
    {
      arr1[2 * i], arr1[2 * i + 1] := ptr[i] % 65536, ptr[i] / 65536;
    }
  }

  /** What sorting and move-to-front coding of block b leave behind. */
  ghost predicate RankedBlock(b: seq<Byte>, used: seq<bool>, ptr: seq<int>, orig: nat, col: seq<int>, v: seq<int>, n: nat) {
    && SortsRotations(b, ptr) && orig < |b| && ptr[orig] == 0 && |used| == 256 && n == |Used(used, 256)|
    && Ranks(used, LastColumn(b, ptr), col) && v == ColumnSymbols(col, n)
  }

  /** unseqToSeq numbers the bytes in use. */
  ghost predicate Numbers(used: seq<bool>, map': seq<int>) {
    && |used| == 256 && |map'| == 256
    && forall c :: 0 <= c < 256 && used[c] ==> 0 <= map'[c] < |Used(used, 256)| && Used(used, 256)[map'[c]] == c
  }

  lemma NumberOf(used: seq<bool>, map': seq<int>, b: seq<Byte>, i: nat)
    requires Numbers(used, map') && Marks(used, b) && i < |b|
    ensures |used| == 256 == |map'| && 0 <= map'[b[i]] < |Used(used, 256)| && Used(used, 256)[map'[b[i]]] == b[i]
  {
    hide Used;
    Marked(used, b, i);
  }

  /** The numbering from makeMaps_e ranks every column of the block. */
  lemma SequencedRanks(b: seq<Byte>, ptr: seq<int>, used: seq<bool>, map': seq<int>)
    requires Permutation(ptr, |b|) && b != [] && Marks(used, b) && |used| == |map'| == 256 && Numbers(used, map')
    ensures Ranks(used, LastColumn(b, ptr), Sequenced(LastColumn(b, ptr), map'))
    ensures forall i :: 0 <= i < |b| ==> 0 <= map'[b[i]] < |Used(used, 256)|
  {
    hide *;
    var l := LastColumn(b, ptr);
    var col := Sequenced(l, map');
    forall i | 0 <= i < |b|
      ensures 0 <= map'[b[i]] < |Used(used, 256)|
    {
      NumberOf(used, map', b, i);
    }
    forall i | 0 <= i < |l|
      ensures 0 <= col[i] < |Used(used, 256)| && Used(used, 256)[col[i]] == l[i]
    {
      ColumnByte(b, ptr, i);
      NumberOf(used, map', b, Back(|b|, ptr[i], 1));
    }
    NumberOf(used, map', b, 0);
    RanksFrom(used, l, col);
  }

  lemma RanksFrom(used: seq<bool>, l: seq<Byte>, col: seq<int>)
    requires |used| == 256 && |col| == |l| && 0 < |Used(used, 256)|
    requires forall i :: 0 <= i < |l| ==> 0 <= col[i] < |Used(used, 256)| && Used(used, 256)[col[i]] == l[i]
    ensures Ranks(used, l, col)
  {
  }

  lemma ColumnByte(b: seq<Byte>, ptr: seq<int>, i: nat)
    requires Permutation(ptr, |b|) && i < |b|
    ensures |ptr| == |b| && 0 <= ptr[i] < |b| && 0 <= Back(|b|, ptr[i], 1) < |b| && LastColumn(b, ptr)[i] == b[Back(|b|, ptr[i], 1)]
  {
  }

  lemma Marked(used: seq<bool>, b: seq<Byte>, i: nat)
    requires Marks(used, b) && i < |b|
    ensures |used| == 256 && used[b[i]]
  {
    assert b[i] in b;
  }

  method SortAndRank(bld: Builder) returns (mtfv: seq<int>, nInUse: nat, origPtr: nat, ghost ptr: seq<int>, ghost col: seq<int>)
    requires bld.Valid() && 0 < bld.nblock <= 900000
    modifies bld.block
    ensures bld.Valid() && bld.Bytes() == old(bld.Bytes()) && bld.Taken() == old(bld.Taken())
    ensures RankedBlock(bld.Bytes(), bld.inUse[..], ptr, origPtr, col, mtfv, nInUse) && |mtfv| <= bld.nblock + 1
  {
    hide Sum, Expand, After, Marks, SortsRotations, Permutation, Ranks, ColumnSymbols, Used, Breaks;
    var n := bld.nblock;
    ghost var b, used := bld.Bytes(), bld.inUse[..];
    var order, eclass, bh := new int[n], new int[n], new bool[n + 128];
    origPtr := BlockSort.SortBlock(order, eclass, bh, bld.block, n);
    assert bld.Bytes() == b;
    ptr := order[..n];
    SortedPointers(b, ptr);
    var arr1 := SplitHalves(order, n);
    var unseqToSeq := new int[256];
    nInUse := MakeMapsE(bld.inUse, unseqToSeq);
    SequencedRanks(b, ptr, used, unseqToSeq[..]);
    SomeUsed(b, used, ptr, unseqToSeq[..]);
    assert forall i :: 0 <= i < n ==> bld.block[i] == b[i];
    col := Sequenced(LastColumn(b, ptr), unseqToSeq[..]);
    var nMTF := GenerateMTFValues(arr1, bld.block, unseqToSeq, n, nInUse);
    mtfv := arr1[..nMTF];
  }

  lemma SortedPointers(b: seq<Byte>, ptr: seq<int>)
    requires SortsRotations(b, ptr)
    ensures Permutation(ptr, |b|) && |ptr| == |b| && forall i :: 0 <= i < |b| ==> 0 <= ptr[i] < |b|
  {
  }

  lemma SomeUsed(b: seq<Byte>, used: seq<bool>, ptr: seq<int>, map': seq<int>)
    requires Permutation(ptr, |b|) && |map'| == 256 && Ranks(used, LastColumn(b, ptr), Sequenced(LastColumn(b, ptr), map'))
    ensures |used| == 256 && 0 < |Used(used, 256)| <= 256
  {
  }

  // ---- one block ----

  /** Bits that suffice for a block of up to n bytes, from its magic on. */
  function BlockLimit(n: nat): nat {
    48 + 32 + 1 + 24 + SectionLimit(n + 1)
  }

  method Frequencies(mtfv: seq<int>) returns (mtfFreq: seq<int>)
    requires InAlphabet(mtfv, MAX_ALPHA)
    ensures |mtfFreq| == MAX_ALPHA
  {
    mtfFreq := seq(MAX_ALPHA, _ => 0);
    for i := 0 to |mtfv|
      invariant |mtfFreq| == MAX_ALPHA
    {
      mtfFreq := mtfFreq[mtfv[i] := mtfFreq[mtfv[i]] + 1];
    }
  }

  lemma SymbolsInAlphabet(col: seq<int>, n: nat)
    requires n > 0 && forall k :: 0 <= k < |col| ==> 0 <= col[k] < n
    ensures InAlphabet(ColumnSymbols(col, n), n + 2) && ColumnSymbols(col, n) != []
  {
    IotaHas(n);
    SymbolsFit(Iota(n), col, 0, n + 1);
    SymbolsEnd(Iota(n), col, 0, n + 1);
    var v := ColumnSymbols(col, n);
    assert forall i :: 0 <= i < |v| ==> v[i] in v;
  }

  /** Write the block from its magic on: what is written is one of the codings of the block that can be read back. */
  method EncodeBlock(w: BitWriter, bld: Builder, crc: nat, level: nat) returns (ghost plan: Plan)
    requires w.Valid() && bld.Valid() && 1 <= level <= 9 && 0 < bld.nblock <= 100000 * level && w.zbits != bld.block
    requires crc == Checksum(bld.table, Expand(bld.Bytes()))
    requires |w.Stream()| + BlockLimit(bld.nblock) <= 8 * w.zbits.Length
    modifies w, w.zbits, bld.block
    ensures w.Valid() && w.zbits == old(w.zbits) && bld.Valid() && bld.Bytes() == old(bld.Bytes()) && bld.Taken() == old(bld.Taken())
    ensures Planned(plan, bld.Bytes(), level) && w.Stream() == old(w.Stream()) + BlockBits(bld.table, plan, bld.Bytes(), level)
    ensures |w.Stream()| <= |old(w.Stream())| + BlockLimit(bld.nblock)
  {
    hide BitWriter.Valid, BitWriter.Stream, BytesToBits, ToBits, Sum, Expand, After, Marks, SortsRotations, Ranks, ColumnSymbols, Used;
    hide MapBits, CodingBits, Sendable, Checksum, Breaks, RankedBlock, InAlphabet, Fitted;
    ghost var b, used, was := bld.Bytes(), bld.inUse[..], w.Stream();
    ghost var ptr, col;
    var mtfv, nInUse, origPtr;
    mtfv, nInUse, origPtr, ptr, col := SortAndRank(bld);
    RankedParts(b, used, ptr, origPtr, col, mtfv, nInUse);
    var mtfFreq := Frequencies(mtfv);
    var flags := bld.inUse[..];
    Pow2Values();
    PutBytes(w, BLOCK_MAGIC);
    PutWord(w, crc);
    PutFlag(w, false);
    w.Put(24, origPtr);
    ghost var tables, sel := SendMTFValues(w, flags, mtfv, mtfFreq, nInUse);
    SectionFits(used, tables, sel, nInUse, mtfv);
    plan := Plan(ptr, origPtr, used, col, tables, sel);
    PlanMade(plan, b, level, mtfv, nInUse);
    Assembled(was, BytesToBits(BLOCK_MAGIC), ToBits(crc, 32), ToBits(origPtr, 24), MapBits(used), CodingBits(tables, sel, nInUse, mtfv));
    BlockBitsAre(bld.table, plan, b, level, crc, mtfv, nInUse);
  }

  lemma RankedParts(b: seq<Byte>, used: seq<bool>, ptr: seq<int>, orig: nat, col: seq<int>, v: seq<int>, n: nat)
    requires RankedBlock(b, used, ptr, orig, col, v, n)
    ensures orig < |b| && |used| == 256 && 1 <= n <= 256 && InAlphabet(v, n + 2) && InAlphabet(v, MAX_ALPHA) && |v| > 0
  {
    SymbolsInAlphabet(col, n);
  }

  lemma PlanMade(plan: Plan, b: seq<Byte>, level: nat, v: seq<int>, n: nat)
    requires 1 <= level <= 9 && |b| <= 100000 * level && Whole(b)
    requires RankedBlock(b, plan.used, plan.ptr, plan.orig, plan.col, v, n) && Sendable(plan.tables, plan.sel, n, v)
    requires Fitted(plan.tables, plan.sel, v, n + 2)
    ensures Planned(plan, b, level)
  {
    hide Fitted;
  }

  lemma Assembled(was: seq<bool>, magic: seq<bool>, crc: seq<bool>, orig: seq<bool>, map': seq<bool>, coding: seq<bool>)
    ensures was + magic + crc + [false] + orig + map' + coding == was + (magic + (crc + [false] + orig + map' + coding))
  {
  }

  lemma BlockBitsAre(t: seq<nat>, plan: Plan, b: seq<Byte>, level: nat, crc: nat, v: seq<int>, n: nat)
    requires Table(t) && Planned(plan, b, level) && crc == Checksum(t, Expand(b))
    requires RankedBlock(b, plan.used, plan.ptr, plan.orig, plan.col, v, n) && Sendable(plan.tables, plan.sel, n, v)
    ensures BlockBits(t, plan, b, level) == BytesToBits(BLOCK_MAGIC)
              + (ToBits(crc, 32) + [false] + ToBits(plan.orig, 24) + MapBits(plan.used) + CodingBits(plan.tables, plan.sel, n, v))
  {
  }
}
