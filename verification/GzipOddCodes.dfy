/** Dynamic blocks that RFC 1951 forbids and the code accepts (libc/gzip.c:238-309, 546-651). */
module GzipOddCodes {
  import opened Words
  import opened Counting
  import opened BitStream
  import opened CanonicalCode
  import opened Crc
  import opened Endian
  import opened GzipBits
  import opened GzipTree
  import opened GzipInflate
  import opened GzipHistory
  import opened GzipTables
  import opened GzipMembers
  import opened GzipStandard
  import opened GzipRfc

  // ---- the code lengths of the code length code ----

  /** Two bits for the lengths 1 and 2, one bit for a run of zeros. */
  const CL: seq<Byte> := [0, 2, 2, 0, 0, 0, 0, 0, 0, 0, 0, 0, 0, 0, 0, 0, 0, 0, 1]

  /** n zero lengths, three bits each. */
  ghost function ZeroLens(n: nat): seq<bool> {
    if n == 0 then [] else LowBits(0, 3) + ZeroLens(n - 1)
  }

  lemma OneLens(v: Byte, z: seq<bool>, i: nat, n: nat, acc: seq<Byte>)
    requires i < n <= 19 && |acc| == 19 && v < 8
    ensures CodeLengthLens(LowBits(v, 3) + z, i, n, acc) == CodeLengthLens(z, i + 1, n, acc[CL_ORDER[i] := v])
  {
    hide LowBits, FromLow;
    var w := LowBits(v, 3) + z;
    assert w[..3] == LowBits(v, 3) && w[3..] == z;
    assert Pow2(3) == 8;
    FromLowBits(v, 3);
  }

  lemma {:induction false} ManyZeroLens(k: nat, z: seq<bool>, i: nat, n: nat, acc: seq<Byte>)
    requires i + k <= n <= 19 && |acc| == 19 && forall j :: i <= j < i + k ==> acc[CL_ORDER[j]] == 0
    ensures CodeLengthLens(ZeroLens(k) + z, i, n, acc) == CodeLengthLens(z, i + k, n, acc)
    decreases k
  {
    hide CodeLengthLens, LowBits;
    if k == 0 {
      assert ZeroLens(0) + z == z;
    } else {
      Regroup(LowBits(0, 3), ZeroLens(k - 1), z);
      OneLens(0, ZeroLens(k - 1) + z, i, n, acc);
      assert acc[CL_ORDER[i] := 0] == acc;
      ManyZeroLens(k - 1, z, i + 1, n, acc);
    }
  }

  /** The lengths of CL in the order in which they are sent. */
  ghost function ClBits(z: seq<bool>): seq<bool> {
    ZeroLens(2) + (LowBits(1, 3) + (ZeroLens(12) + (LowBits(2, 3) + (ZeroLens(1) + (LowBits(2, 3) + z)))))
  }

  lemma ClRead(z: seq<bool>)
    ensures CodeLengthLens(ClBits(z), 0, 18, Copies(0, 19)) == Ok(CL, z)
  {
    hide LowBits, CodeLengthLens, ZeroLens;
    var a := Copies(0, 19);
    var b := a[18 := 1];
    var c := b[2 := 2];
    assert c[1 := 2] == CL;
    var z5 := LowBits(2, 3) + z;
    var z4 := ZeroLens(1) + z5;
    var z3 := LowBits(2, 3) + z4;
    var z2 := ZeroLens(12) + z3;
    ManyZeroLens(2, LowBits(1, 3) + z2, 0, 18, a);
    OneLens(1, z2, 2, 18, a);
    ManyZeroLens(12, z3, 3, 18, b);
    OneLens(2, z4, 15, 18, b);
    ManyZeroLens(1, z5, 16, 18, c);
    OneLens(2, z, 17, 18, c);
    ClEnds(z);
  }

  lemma ClEnds(z: seq<bool>)
    ensures CodeLengthLens(z, 18, 18, CL) == Ok(CL, z)
  {
  }

  // ---- Kraft sums ----

  lemma {:induction false} KraftZeros(lens: seq<Byte>, n: nat)
    requires Within(lens, MAX_BITS)
    ensures Within(lens + Copies(0, n), MAX_BITS) && Kraft(lens + Copies(0, n), MAX_BITS) == Kraft(lens, MAX_BITS)
    decreases n
  {
    hide Pow2;
    if n == 0 {
      assert lens + Copies(0, 0) == lens;
    } else {
      KraftZeros(lens, n - 1);
      var w := lens + Copies(0, n);
      assert w[..|w| - 1] == lens + Copies(0, n - 1) && w[|w| - 1] == 0;
    }
  }

  lemma HighPowers()
    ensures Pow2(13) == 8192 && Pow2(14) == 16384 && Pow2(15) == 32768
  {
    SmallPowers();
    assert Pow2(15) == 2 * Pow2(14) && Pow2(14) == 2 * Pow2(13);
  }

  lemma ClSound(full: bool)
    ensures Sound(CL, full) && Usable(CL)
  {
    hide Kraft, Copies, DistinctCodes;
    KraftNothing();
    KraftZeros([], 1);
    KraftRepeat([] + Copies(0, 1), 2, 2);
    KraftZeros([] + Copies(0, 1) + Copies(2, 2), 15);
    KraftRepeat([] + Copies(0, 1) + Copies(2, 2) + Copies(0, 15), 1, 1);
    assert CL == [] + Copies(0, 1) + Copies(2, 2) + Copies(0, 15) + Copies(1, 1);
    HighPowers();
    SoundUsable(CL, full);
  }

  // ---- code lengths ----

  lemma LengthRead(sym: Byte, z: seq<bool>, total: nat, acc: seq<Byte>)
    requires 1 <= sym <= 2 && |acc| < total
    ensures CodeLengths(CL, CodeBits(CL, sym) + z, total, acc) == CodeLengths(CL, z, total, acc + [sym])
    ensures Uncut(CL, CodeBits(CL, sym) + z, total, |acc|) <==> Uncut(CL, z, total, |acc| + 1)
  {
    hide Lookup, CodeBits, Kraft, Extra, DistinctCodes;
    ClSound(false);
    CanonicalDecode(CL, sym, z);
  }

  /** A run of zeros: the code of 18, and how many above eleven. */
  ghost function RunBits(rep: nat, z: seq<bool>): seq<bool>
    requires 11 <= rep
  {
    CodeBits(CL, 18) + (LowBits(rep - 11, 7) + z)
  }

  lemma RunRead(rep: nat, z: seq<bool>, total: nat, acc: seq<Byte>)
    requires 11 <= rep <= 138 && |acc| < total
    ensures CodeLengths(CL, RunBits(rep, z), total, acc) == CodeLengths(CL, z, total, acc + Copies(0, Least(rep, total - |acc|)))
    ensures Uncut(CL, RunBits(rep, z), total, |acc|) <==> |acc| + rep <= total && Uncut(CL, z, total, |acc| + rep)
  {
    hide Lookup, CodeBits, Kraft, LowBits, FromLow, DistinctCodes, Copies;
    ClSound(false);
    var w := LowBits(rep - 11, 7) + z;
    CanonicalDecode(CL, 18, w);
    SmallPowers();
    FromLowBits(rep - 11, 7);
    assert w[..7] == LowBits(rep - 11, 7) && w[7..] == z;
    assert Extra(11, 7, w) == Ok(rep, z);
  }

  lemma Together(m: nat, n: nat)
    ensures Copies(0, m) + Copies(0, n) == Copies(0, m + n)
  {
  }

  /** Two runs: 138 zeros and k more. */
  lemma RunsRead(k: nat, z: seq<bool>, total: nat)
    requires 11 <= k <= 138 && 138 + k <= total
    ensures CodeLengths(CL, RunBits(138, RunBits(k, z)), total, []) == CodeLengths(CL, z, total, Copies(0, 138 + k))
    ensures Uncut(CL, RunBits(138, RunBits(k, z)), total, 0) <==> Uncut(CL, z, total, 138 + k)
  {
    hide CodeLengths, Uncut, RunBits, Copies;
    RunRead(138, RunBits(k, z), total, []);
    assert [] + Copies(0, 138) == Copies(0, 138);
    RunRead(k, z, total, Copies(0, 138));
    Together(138, k);
  }

  // ---- the start of a block ----

  /** hlit 257 and hclen 18, the lengths of CL, and 138 + k zero lengths. */
  ghost function HeadBits(hdist: nat, k: nat, z: seq<bool>): seq<bool>
    requires 1 <= hdist && 11 <= k
  {
    LowBits(0, 5) + (LowBits(hdist - 1, 5) + (LowBits(14, 4) + ClBits(RunBits(138, RunBits(k, z)))))
  }

  lemma HeadRead(hdist: nat, k: nat, z: seq<bool>, full: bool)
    requires 1 <= hdist <= 32 && 11 <= k <= 138 && 138 + k <= 257 + hdist
    ensures var lens := CodeLengths(CL, z, 257 + hdist, Copies(0, 138 + k));
            && Tables(HeadBits(hdist, k, z)) == (
                 if lens.Failed? then Failed
                 else if Usable(lens.value[..257]) && Usable(lens.value[257..]) then Ok(Codes(lens.value[..257], lens.value[257..]), lens.rest)
                 else Failed)
            && (LawfulTables(HeadBits(hdist, k, z), full) <==>
                  Uncut(CL, z, 257 + hdist, 138 + k)
                  && (lens.Ok? ==> Sound(lens.value[..257], full) && SoundDistances(lens.value[257..], full)))
  {
    hide LowBits, FromLow, CodeLengths, Uncut, RunBits, ClBits, Copies, CodeLengthLens, Sound, SoundDistances, Usable;
    var runs := RunBits(138, RunBits(k, z));
    HeadFields(hdist, ClBits(runs));
    ClRead(runs);
    ClSound(full);
    RunsRead(k, z, 257 + hdist);
  }

  lemma HeadFields(hdist: nat, z: seq<bool>)
    requires 1 <= hdist <= 32
    ensures var w := LowBits(0, 5) + (LowBits(hdist - 1, 5) + (LowBits(14, 4) + z));
            |w| >= 14 && FromLow(w[..5]) == 0 && FromLow(w[5..10]) == hdist - 1 && FromLow(w[10..14]) == 14 && w[14..] == z
  {
    hide LowBits, FromLow;
    var a, b, c := LowBits(0, 5), LowBits(hdist - 1, 5), LowBits(14, 4);
    var w := a + (b + (c + z));
    assert w[..5] == a && w[5..10] == b && w[10..14] == c && w[14..] == z;
    assert Pow2(4) == 16 && Pow2(5) == 32 by { SmallPowers(); assert Pow2(6) == 2 * Pow2(5) && Pow2(5) == 2 * Pow2(4); }
    FromLowBits(0, 5);
    FromLowBits(hdist - 1, 5);
    FromLowBits(14, 4);
  }

  // ---- a file around a block ----

  /** A last dynamic block whose codes are lit and dst, and which ends at once. */
  ghost predicate Empty(z: seq<bool>, lit: seq<Byte>, dst: seq<Byte>, pad: seq<bool>) {
    && PrefixCode(lit, MAX_BITS) && |lit| > 256 && lit[256] > 0
    && Tables(z) == Ok(Codes(lit, dst), CodeBits(lit, 256) + pad)
  }

  lemma EmptyRead(lit: seq<Byte>, dst: seq<Byte>, pad: seq<bool>)
    requires PrefixCode(lit, MAX_BITS) && |lit| > 256 && lit[256] > 0
    ensures Next(lit, dst, CodeBits(lit, 256) + pad) == End(pad)
  {
    hide CodeBits, Lookup, Kraft, DistinctCodes;
    CanonicalDecode(lit, 256, pad);
  }

  /** The last block of a member, dynamic. */
  ghost function BlockStart(z: seq<bool>): seq<bool> {
    [true, false, true] + z
  }

  lemma BlockStarts(z: seq<bool>)
    ensures var w := BlockStart(z); |w| >= 3 && w[0] && FromLow(w[1..3]) == 2 && w[3..] == z
  {
    var w := BlockStart(z);
    assert w[1..3] == [false, true];
    assert [false, true][1..] == [true] && [true][1..] == [];
  }

  lemma EmptyBlocks(z: seq<bool>, lit: seq<Byte>, dst: seq<Byte>, pad: seq<bool>, hist: seq<Byte>, full: bool)
    requires |hist| >= WINDOW && Empty(z, lit, dst, pad)
    ensures Blocks(BlockStart(z), hist) == Inflated.Done(hist, pad)
    ensures LawfulBlocks(BlockStart(z), |hist| - WINDOW, full) <==> LawfulTables(z, full)
  {
    hide FromLow, Tables, LawfulTables, Next, Kraft, CodeBits, GzipMembers.Stored, BlockStart, Copies;
    BlockStarts(z);
    EmptyRead(lit, dst, pad);
  }

  ghost function EmptyTrailer(t: seq<nat>): seq<Byte>
    requires Table(t)
  {
    LittleBytes(Finalise(SumLow(t, [])), 4) + LittleBytes(0, 4)
  }

  /** Bits that fill up a byte, and the trailer of an empty member. */
  ghost function Ending(t: seq<nat>, pad: nat): seq<bool>
    requires Table(t)
  {
    seq(pad, _ => false) + ByteBits(EmptyTrailer(t))
  }

  lemma EndingRead(t: seq<nat>, pad: nat)
    requires Table(t) && pad < 8
    ensures Checked(t, [], Ending(t, pad)) == Inflated.Done([], []) && |Ending(t, pad)| == pad + 64
  {
    hide FromLow, ByteBits, LittleBytes, SumLow, Finalise, Bytes, Little;
    var tail := ByteBits(EmptyTrailer(t));
    CheckedRead(t, [], []);
    var none: seq<Byte> := [];
    assert |none| % WORD == 0;
    assert tail + [] == tail;
    var z := Ending(t, pad);
    assert |tail| == 64 && |z| % 8 == pad;
    assert z[pad..] == tail;
    assert Aligned(z) == tail && Aligned(tail) == tail;
  }

  /** The bits of the file of an empty member with one dynamic block. */
  ghost function FileBits(z: seq<bool>): seq<bool> {
    ByteBits(GZIP_HEADER) + BlockStart(z)
  }

  lemma FileOf(t: seq<nat>, z: seq<bool>, lit: seq<Byte>, dst: seq<Byte>, pad: nat, win: seq<Byte>, full: bool)
    requires Table(t) && |win| == WINDOW && pad < 8 && Empty(z, lit, dst, Ending(t, pad))
    ensures Gunzip(t, FileBits(z), true, [], win) == Inflated.Done([], [])
    ensures Lawful(FileBits(z), full) <==> LawfulTables(z, full)
  {
    hide FromLow, ByteBits, SkipHeader, Blocks, LawfulBlocks, Checked, Ending, BlockStart, Empty, NoReserved, Turned, Table, LawfulTables, MemberEnd;
    var w := FileBits(z);
    HeaderRead(BlockStart(z));
    assert GZIP_HEADER[3 := 0] == GZIP_HEADER;
    FlaggedHeader(0, BlockStart(z));
    assert win[WINDOW..] == [];
    EmptyBlocks(z, lit, dst, Ending(t, pad), win, full);
    EndingRead(t, pad);
    StdMemberIs(t, w, win, full);
  }

  /** The file that these bits are, what the code makes of it, and what the standards do. */
  lemma OddFile(t: seq<nat>, z: seq<bool>, lit: seq<Byte>, dst: seq<Byte>, pad: nat, win: seq<Byte>, full: bool) returns (file: seq<Byte>)
    requires Table(t) && |win| == WINDOW && pad < 8 && Empty(z, lit, dst, Ending(t, pad)) && |z| % 8 == 5
    ensures ByteBits(file) == FileBits(z) && Gunzip(t, ByteBits(file), true, [], win) == Inflated.Done([], [])
    ensures Standard(t, ByteBits(file), true, [], full) == if LawfulTables(z, full) then Inflated.Done([], []) else Inflated.Error
  {
    hide ByteBits, Gunzip, Standard, Lawful, LawfulTables, Empty, Ending, Table, Bytes;
    FileOf(t, z, lit, dst, pad, win, full);
    StandardIs(t, FileBits(z), true, [], win, full);
    var n := (83 + |z|) / 8;
    file := Bytes(FileBits(z), n);
    BytesOf(FileBits(z), n);
  }

  lemma MakesEmpty(z: seq<bool>, lit: seq<Byte>, dst: seq<Byte>, t: seq<nat>, pad: nat, full: bool)
    requires Table(t) && pad < 8 && Sound(lit, full) && |lit| == 257 && lit[256] == 1
    requires Tables(z) == Ok(Codes(lit, dst), CodeBits(lit, 256) + Ending(t, pad))
    ensures Empty(z, lit, dst, Ending(t, pad)) && |CodeBits(lit, 256) + Ending(t, pad)| == 65 + pad
  {
    hide Tables, CodeBits, Ending, Kraft, Table;
    EndingRead(t, pad);
  }

  lemma HeadLength(hdist: nat, k: nat, z: seq<bool>)
    requires 1 <= hdist && 11 <= k
    ensures |HeadBits(hdist, k, z)| == 84 + |z|
  {
    hide LowBits, CodeBits;
    assert |ZeroLens(2)| == 6 && |ZeroLens(1)| == 3 by { assert ZeroLens(0) == []; }
    ZeroLensLength(12);
  }

  lemma {:induction false} ZeroLensLength(n: nat)
    ensures |ZeroLens(n)| == 3 * n
  {
    hide LowBits;
    if n > 0 { ZeroLensLength(n - 1); }
  }

  // ---- three such files ----

  /** The literal code of the end of the block and one literal, one bit each. */
  const PAIR: seq<Byte> := Copies(0, 255) + [1, 1]

  lemma PairSound(full: bool)
    ensures Sound(PAIR, full) && Usable(PAIR) && |PAIR| == 257 && PAIR[256] == 1
  {
    hide Kraft, Copies, DistinctCodes;
    KraftNothing();
    KraftZeros([], 255);
    KraftRepeat([] + Copies(0, 255), 1, 2);
    assert PAIR == [] + Copies(0, 255) + Copies(1, 2);
    HighPowers();
    SoundUsable(PAIR, full);
  }

  /** Three code words, one of them the beginning of another. */
  const TRIPLE: seq<Byte> := [1, 1, 2]

  lemma TripleUsable(full: bool)
    ensures Usable(TRIPLE) && !SoundDistances(TRIPLE, full)
  {
    hide Kraft, Copies, Count, ToBits;
    KraftNothing();
    KraftRepeat([], 1, 2);
    KraftRepeat([] + Copies(1, 2), 2, 1);
    assert TRIPLE == [] + Copies(1, 2) + Copies(2, 1);
    HighPowers();
    TripleWords();
  }

  lemma TripleWords()
    ensures CodeBits(TRIPLE, 0) != CodeBits(TRIPLE, 1)
  {
    hide ToBits;
    CountNone(TRIPLE[..0], 1);
    CountNext(TRIPLE, 0);
    assert TRIPLE[..0] == [];
    OneBit();
  }

  lemma OneBit()
    ensures ToBits(0, 1) != ToBits(1, 1)
  {
    assert ToBits(0, 1)[0] == false && ToBits(1, 1)[0] == true;
  }

  ghost function OverfullTables(z: seq<bool>): seq<bool> {
    HeadBits(3, 117, CodeBits(CL, 1) + (CodeBits(CL, 1) + (CodeBits(CL, 1) + (CodeBits(CL, 1) + (CodeBits(CL, 2) + z)))))
  }

  lemma OverfullRead(z: seq<bool>, full: bool)
    ensures Tables(OverfullTables(z)) == Ok(Codes(PAIR, TRIPLE), z) && !LawfulTables(OverfullTables(z), full)
  {
    hide CodeLengths, Uncut, CodeBits, HeadBits, Tables, LawfulTables, Sound, SoundDistances, Usable, Copies;
    var z4 := CodeBits(CL, 2) + z;
    var z3 := CodeBits(CL, 1) + z4;
    var z2 := CodeBits(CL, 1) + z3;
    var z1 := CodeBits(CL, 1) + z2;
    var a := Copies(0, 255);
    HeadRead(3, 117, CodeBits(CL, 1) + z1, full);
    LengthRead(1, z1, 260, a);
    LengthRead(1, z2, 260, a + [1]);
    LengthRead(1, z3, 260, a + [1] + [1]);
    LengthRead(1, z4, 260, a + [1] + [1] + [1]);
    LengthRead(2, z, 260, a + [1] + [1] + [1] + [1]);
    var lens := a + [1] + [1] + [1] + [1] + [2];
    LengthsDone(z, lens);
    assert lens[..257] == PAIR && lens[257..] == TRIPLE;
    PairSound(full);
    TripleUsable(full);
  }

  lemma LengthsDone(z: seq<bool>, lens: seq<Byte>)
    ensures CodeLengths(CL, z, |lens|, lens) == Ok(lens, z) && Uncut(CL, z, |lens|, |lens|)
  {
  }

  /** Section 3.2.1 of RFC 1951 forbids this file, whose distance code is no prefix code; the code accepts it. */
  lemma OverfullFile(t: seq<nat>, win: seq<Byte>, full: bool) returns (file: seq<Byte>)
    requires Table(t) && |win| == WINDOW
    ensures Gunzip(t, ByteBits(file), true, [], win) == Inflated.Done([], []) && Standard(t, ByteBits(file), true, [], full).Error?
  {
    hide ByteBits, Gunzip, Standard, Tables, LawfulTables, OverfullTables, CodeBits, Ending, Table, FileBits, Empty, Sound, SoundDistances, Usable, Copies;
    var end := CodeBits(PAIR, 256) + Ending(t, 6);
    PairSound(full);
    OverfullRead(end, full);
    OverfullLength(end);
    MakesEmpty(OverfullTables(end), PAIR, TRIPLE, t, 6, full);
    file := OddFile(t, OverfullTables(end), PAIR, TRIPLE, 6, win, full);
  }

  lemma OverfullLength(z: seq<bool>)
    ensures |OverfullTables(z)| == 94 + |z|
  {
    hide HeadBits, CodeBits;
    HeadLength(3, 117, CodeBits(CL, 1) + (CodeBits(CL, 1) + (CodeBits(CL, 1) + (CodeBits(CL, 1) + (CodeBits(CL, 2) + z)))));
  }

  ghost function CutTables(z: seq<bool>): seq<bool> {
    HeadBits(1, 117, CodeBits(CL, 1) + (CodeBits(CL, 1) + RunBits(11, z)))
  }

  lemma CutRead(z: seq<bool>, full: bool)
    ensures Tables(CutTables(z)) == Ok(Codes(PAIR, [0]), z) && !LawfulTables(CutTables(z), full)
  {
    hide CodeLengths, Uncut, CodeBits, RunBits, HeadBits, Tables, LawfulTables, Sound, SoundDistances, Usable, Copies;
    var z2 := RunBits(11, z);
    var z1 := CodeBits(CL, 1) + z2;
    var a := Copies(0, 255);
    HeadRead(1, 117, CodeBits(CL, 1) + z1, full);
    LengthRead(1, z1, 258, a);
    LengthRead(1, z2, 258, a + [1]);
    RunRead(11, z, 258, a + [1] + [1]);
    assert Copies(0, 1) == [0];
    var lens := a + [1] + [1] + [0];
    LengthsDone(z, lens);
    assert lens[..257] == PAIR && lens[257..] == [0];
    PairSound(full);
    NoneUsable();
  }

  lemma NoneUsable()
    ensures Usable([0])
  {
    hide CodeBits;
  }

  /** Section 3.2.7 of RFC 1951 forbids this file, whose code lengths are more than announced; the code drops the rest of the run. */
  lemma CutFile(t: seq<nat>, win: seq<Byte>, full: bool) returns (file: seq<Byte>)
    requires Table(t) && |win| == WINDOW
    ensures Gunzip(t, ByteBits(file), true, [], win) == Inflated.Done([], []) && Standard(t, ByteBits(file), true, [], full).Error?
  {
    hide ByteBits, Gunzip, Standard, Tables, LawfulTables, CutTables, CodeBits, Ending, Table, FileBits, Empty, Sound, SoundDistances, Usable, Copies;
    var end := CodeBits(PAIR, 256) + Ending(t, 4);
    PairSound(full);
    CutRead(end, full);
    CutLength(end);
    MakesEmpty(CutTables(end), PAIR, [0], t, 4, full);
    file := OddFile(t, CutTables(end), PAIR, [0], 4, win, full);
  }

  lemma CutLength(z: seq<bool>)
    ensures |CutTables(z)| == 96 + |z|
  {
    hide HeadBits, CodeBits, LowBits;
    HeadLength(1, 117, CodeBits(CL, 1) + (CodeBits(CL, 1) + RunBits(11, z)));
  }

  /** The literal code of the end of the block alone. */
  const SINGLE: seq<Byte> := Copies(0, 256) + [1]

  lemma SingleSound()
    ensures Sound(SINGLE, false) && !Sound(SINGLE, true) && Usable(SINGLE) && |SINGLE| == 257 && SINGLE[256] == 1
    ensures SoundDistances([1], false) && Usable([1])
  {
    hide Kraft, Copies, DistinctCodes;
    KraftNothing();
    KraftZeros([], 256);
    KraftRepeat([] + Copies(0, 256), 1, 1);
    KraftRepeat([], 1, 1);
    assert SINGLE == [] + Copies(0, 256) + Copies(1, 1) && [1] == [] + Copies(1, 1);
    HighPowers();
    SoundUsable(SINGLE, false);
    SoundUsable([1], false);
  }

  ghost function SparseTables(z: seq<bool>): seq<bool> {
    HeadBits(1, 118, CodeBits(CL, 1) + (CodeBits(CL, 1) + z))
  }

  lemma SparseRead(z: seq<bool>, full: bool)
    ensures Tables(SparseTables(z)) == Ok(Codes(SINGLE, [1]), z) && (LawfulTables(SparseTables(z), full) <==> !full)
  {
    hide CodeLengths, Uncut, CodeBits, HeadBits, Tables, LawfulTables, Sound, SoundDistances, Usable, Copies;
    var z1 := CodeBits(CL, 1) + z;
    var a := Copies(0, 256);
    HeadRead(1, 118, CodeBits(CL, 1) + z1, full);
    LengthRead(1, z1, 258, a);
    LengthRead(1, z, 258, a + [1]);
    var lens := a + [1] + [1];
    LengthsDone(z, lens);
    assert lens[..257] == SINGLE && lens[257..] == [1];
    SingleSound();
  }

  /** Where the two readings of section 3.2.1 of RFC 1951 differ: a literal code with an unused word. */
  lemma SparseFile(t: seq<nat>, win: seq<Byte>) returns (file: seq<Byte>)
    requires Table(t) && |win| == WINDOW
    ensures Gunzip(t, ByteBits(file), true, [], win) == Standard(t, ByteBits(file), true, [], false) == Inflated.Done([], [])
    ensures Standard(t, ByteBits(file), true, [], true).Error?
  {
    hide ByteBits, Gunzip, Standard, Tables, LawfulTables, SparseTables, CodeBits, Ending, Table, FileBits, Empty, Sound, SoundDistances, Usable, Copies;
    var end := CodeBits(SINGLE, 256) + Ending(t, 4);
    SingleSound();
    SparseRead(end, true);
    SparseRead(end, false);
    SparseLength(end);
    MakesEmpty(SparseTables(end), SINGLE, [1], t, 4, false);
    file := OddFile(t, SparseTables(end), SINGLE, [1], 4, win, false);
    var same := OddFile(t, SparseTables(end), SINGLE, [1], 4, win, true);
  }

  lemma SparseLength(z: seq<bool>)
    ensures |SparseTables(z)| == 88 + |z|
  {
    hide HeadBits, CodeBits;
    HeadLength(1, 118, CodeBits(CL, 1) + (CodeBits(CL, 1) + z));
  }
}
