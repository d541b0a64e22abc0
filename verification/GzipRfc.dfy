/** When the code inflates a file as RFC 1951 and RFC 1952 say (libc/gzip.c:654-797), and files on which it does not. */
module GzipRfc {
  import opened Words
  import opened Counting
  import opened BitStream
  import opened CanonicalCode
  import opened Crc
  import opened Endian
  import opened GzipBits
  import opened GzipTree
  import opened GzipInflate
  import opened GzipHistory
  import opened GzipTables
  import opened GzipMembers
  import opened GzipStandard

  /**
   * A file that the code accepts is inflated as the two standards say exactly when it keeps the rules that the code does
   * not check; and the code accepts every file that the standards allow. Both hold whatever the window held before, and
   * for both readings of what a code is.
   */
  lemma FileMeetsRfc(t: seq<nat>, z: seq<bool>, win: seq<Byte>, full: bool)
    requires Table(t) && |win| == WINDOW
    ensures var got, says := Gunzip(t, z, true, [], win), Standard(t, z, true, [], full);
            (got.Done? ==> (got == says <==> Lawful(z, full))) && (says.Done? ==> got == says)
  {
    hide Gunzip, Standard, Lawful;
    StandardIs(t, z, true, [], win, full);
  }

  /** A file that keeps the rules is inflated to the same bytes whatever the window held. */
  lemma LawfulAlone(t: seq<nat>, z: seq<bool>, win: seq<Byte>, win': seq<Byte>, full: bool)
    requires Table(t) && |win| == |win'| == WINDOW && Lawful(z, full)
    ensures Gunzip(t, z, true, [], win) == Gunzip(t, z, true, [], win')
  {
    hide Gunzip, Standard, Lawful;
    StandardIs(t, z, true, [], win, full);
    StandardIs(t, z, true, [], win', full);
  }

  // ---- files as the writer writes them, and padding ----

  lemma {:induction false} WrittenBlocks(chunks: seq<seq<Byte>>, n: nat, rest: seq<bool>, full: bool)
    requires Reads(chunks) && |rest| % 8 == 0
    ensures LawfulBlocks(ByteBits(BlocksBytes(chunks)) + rest, n, full)
    decreases |chunks|
  {
    hide LowBits, FromLow, ByteBits, BlockBytes, GzipMembers.Stored, Tables, LawfulTables;
    if |chunks| <= 1 {
      StoredRead(if chunks == [] then [] else chunks[0], true, [], rest);
    } else {
      var first, later := BlockBytes(chunks[0], false), BlocksBytes(chunks[1..]);
      ByteBitsAppend(first, later);
      Regroup(ByteBits(first), ByteBits(later), rest);
      StoredRead(chunks[0], false, [], ByteBits(later) + rest);
      assert [] + chunks[0] == chunks[0];
      WrittenBlocks(chunks[1..], n + |chunks[0]|, rest, full);
    }
  }

  /** A header with reserved flags is read like one without. */
  lemma FlaggedHeader(flags: Byte, rest: seq<bool>)
    requires flags % 32 == 0
    ensures var z := ByteBits(GZIP_HEADER[3 := flags]) + rest;
            && SkipHeader(z) == Ok((), rest) && |z| >= 8 && FromLow(z[..8]) == 0x1f && (NoReserved(z) <==> flags == 0)
  {
    hide LowBits, FromLow, ByteBits, Bytes;
    BytesBack(GZIP_HEADER[3 := flags], rest);
    FirstOf(GZIP_HEADER[3 := flags], rest);
    HighFlags(flags);
  }

  lemma HighFlags(flags: Byte)
    requires flags % 32 == 0
    ensures !Flag(flags, 1) && !Flag(flags, 2) && !Flag(flags, 3) && !Flag(flags, 4)
  {
    assert Pow2(1) == 2 && Pow2(2) == 4 && Pow2(3) == 8 && Pow2(4) == 16;
    var q := flags / 32;
    assert flags / 2 == 16 * q && flags / 4 == 8 * q && flags / 8 == 4 * q && flags / 16 == 2 * q;
  }

  /** A member as the writer writes it, but with these flags. */
  ghost function FlaggedMember(t: seq<nat>, chunks: seq<seq<Byte>>, flags: Byte): seq<Byte>
    requires Table(t) && Reads(chunks)
  {
    var data := Joined(chunks);
    GZIP_HEADER[3 := flags] + BlocksBytes(chunks) + (LittleBytes(Finalise(SumLow(t, data)), 4) + LittleBytes(|data| % WORD, 4))
  }

  lemma FlaggedRead(t: seq<nat>, chunks: seq<seq<Byte>>, flags: Byte, rest: seq<bool>, win: seq<Byte>, full: bool)
    requires |win| == WINDOW && Table(t) && Reads(chunks) && |rest| % 8 == 0 && flags % 32 == 0
    ensures var z := ByteBits(FlaggedMember(t, chunks, flags)) + rest;
            && |z| >= 8 && FromLow(z[..8]) == 0x1f && MemberOf(t, z, win) == Inflated.Done(Joined(chunks), rest)
            && MemberEnd(z) == Ok((), rest) && (LawfulMember(z, full) <==> flags == 0)
  {
    hide LowBits, FromLow, ByteBits, BlocksBytes, SkipHeader, Blocks, Checked, LittleBytes, SumLow, Finalise, LawfulBlocks, NoReserved, MemberEnd;
    var data, head := Joined(chunks), GZIP_HEADER[3 := flags];
    var blocks := BlocksBytes(chunks);
    var trailer := LittleBytes(Finalise(SumLow(t, data)), 4) + LittleBytes(|data| % WORD, 4);
    var tail := ByteBits(trailer) + rest;
    var body := ByteBits(blocks) + tail;
    ByteBitsAppend(head + blocks, trailer);
    ByteBitsAppend(head, blocks);
    Four(ByteBits(head), ByteBits(blocks), ByteBits(trailer), rest);
    FlaggedHeader(flags, body);
    assert |tail| % 8 == 0;
    BlocksRead(chunks, win, tail);
    assert (win + data)[WINDOW..] == data;
    CheckedRead(t, data, rest);
    WrittenBlocks(chunks, 0, tail, full);
    StdMemberIs(t, ByteBits(head) + body, win, full);
  }

  /** Section 2.3.1.2 of RFC 1952 has every reserved flag refused; the code inflates such a file like any other. */
  lemma FlaggedFile(t: seq<nat>, chunks: seq<seq<Byte>>, flags: Byte, win: seq<Byte>, full: bool)
    requires |win| == WINDOW && Table(t) && Reads(chunks) && flags % 32 == 0 && flags > 0
    ensures var z := ByteBits(FlaggedMember(t, chunks, flags));
            Gunzip(t, z, true, [], win) == Inflated.Done(Joined(chunks), []) && Standard(t, z, true, [], full).Error?
  {
    hide FromLow, ByteBits, FlaggedMember, MemberOf, LawfulMember, MemberEnd, Standard, Turned, Table;
    var z := ByteBits(FlaggedMember(t, chunks, flags));
    assert z + [] == z;
    FlaggedRead(t, chunks, flags, [], win, full);
    assert [] + Joined(chunks) == Joined(chunks);
    StandardIs(t, z, true, [], win, full);
  }

  /** A written member is one without flags. */
  lemma NotFlagged(t: seq<nat>, chunks: seq<seq<Byte>>)
    requires Table(t) && Reads(chunks)
    ensures MemberBytes(t, chunks) == FlaggedMember(t, chunks, 0)
  {
    hide BlocksBytes, LittleBytes, SumLow, Finalise;
    assert GZIP_HEADER[3 := 0] == GZIP_HEADER;
    var data := Joined(chunks);
    Regroup(GZIP_HEADER + BlocksBytes(chunks), LittleBytes(Finalise(SumLow(t, data)), 4), LittleBytes(|data| % WORD, 4));
  }

  ghost predicate Unpadded(items: seq<Item>, last: nat) {
    last == 0 && forall i :: 0 <= i < |items| ==> items[i].zeros == 0
  }

  /**
   * Section 2.2 of RFC 1952 allows nothing before, between or after members; the code skips zero bytes there. Of the files
   * that `FileRead` is about, those without any keep the rules, and no others.
   */
  lemma {:induction false} PaddedFile(t: seq<nat>, items: seq<Item>, last: nat, full: bool)
    requires Table(t) && forall i :: 0 <= i < |items| ==> Reads(items[i].chunks)
    ensures Lawful(ByteBits(FileBytes(t, items, last)), full) <==> Unpadded(items, last)
    decreases |items|
  {
    hide FromLow, ByteBits, MemberBytes, FlaggedMember, LawfulMember, MemberEnd, Copies, MemberOf, Table;
    if items == [] {
      ZerosFirst(last, []);
    } else {
      var zeros, member, later := Copies(0, items[0].zeros), MemberBytes(t, items[0].chunks), FileBytes(t, items[1..], last);
      ByteBitsAppend(zeros + member, later);
      ByteBitsAppend(zeros, member);
      Regroup(ByteBits(zeros), ByteBits(member), ByteBits(later));
      ZerosFirst(items[0].zeros, ByteBits(member) + ByteBits(later));
      if items[0].zeros == 0 {
        NotFlagged(t, items[0].chunks);
        FlaggedRead(t, items[0].chunks, 0, ByteBits(later), Copies(0, WINDOW), full);
        PaddedFile(t, items[1..], last, full);
        UnpaddedFirst(items, last);
      }
    }
  }

  lemma UnpaddedFirst(items: seq<Item>, last: nat)
    requires items != [] && items[0].zeros == 0
    ensures Unpadded(items, last) <==> Unpadded(items[1..], last)
  {
    if Unpadded(items[1..], last) {
      forall i | 0 <= i < |items| ensures items[i].zeros == 0 { if i > 0 { assert items[1..][i - 1] == items[i]; } }
    }
  }

  lemma ZerosFirst(n: nat, z: seq<bool>)
    ensures n == 0 ==> ByteBits(Copies(0, n)) + z == z
    ensures n > 0 ==> |ByteBits(Copies(0, n)) + z| >= 8 && FromLow((ByteBits(Copies(0, n)) + z)[..8]) == 0
    ensures ByteBits(Copies(0, n)) + [] == ByteBits(Copies(0, n))
  {
    hide LowBits, FromLow;
    if n == 0 {
      assert Copies(0, 0) == [] && ByteBits([]) == [];
    } else {
      FirstOf(Copies(0, n), z);
    }
  }

  // ---- a distance that is too far ----

  /** The fixed code words of length 3, of the end of the block, and of distance 1. */
  lemma StaleCodes()
    ensures CodeBits(FIXED_LIT, 257) == [false, false, false, false, false, false, true]
    ensures CodeBits(FIXED_LIT, 256) == [false, false, false, false, false, false, false]
    ensures CodeBits(FIXED_DIST, 0) == [false, false, false, false, false]
  {
    hide Count, First, ToBits, Copies;
    NoneShorter(FIXED_LIT, 7);
    NoneShorter(FIXED_DIST, 5);
    CountNone(FIXED_LIT[..256], 7);
    CountNext(FIXED_LIT, 256);
    CountNone(FIXED_DIST[..0], 5);
    assert FIXED_LIT[256] == 7 && FIXED_LIT[257] == 7 && FIXED_DIST[0] == 5;
    ZeroBits();
  }

  lemma ZeroBits()
    ensures ToBits(0, 5) == [false, false, false, false, false]
    ensures ToBits(0, 7) == [false, false, false, false, false, false, false]
    ensures ToBits(1, 7) == [false, false, false, false, false, false, true]
  {
    assert ToBits(0, 2) == [false, false];
    assert ToBits(0, 4) == [false, false, false, false];
    assert ToBits(0, 6) == [false, false, false, false, false, false];
  }

  /** One block with a match of length 3 at distance 1, and nothing before it. */
  const STALE_BLOCK: seq<Byte> := [3, 2, 0]

  lemma StaleBits(rest: seq<bool>)
    ensures var z := ByteBits(STALE_BLOCK) + rest;
            |z| >= 3 && z[0] && FromLow(z[1..3]) == 1
            && z[3..] == CodeBits(FIXED_LIT, 257) + (CodeBits(FIXED_DIST, 0) + (CodeBits(FIXED_LIT, 256) + ([false, false] + rest)))
  {
    hide CodeBits, Copies, FromLow, ByteBits;
    StaleCodes();
    StaleBytes();
    var a, z := ByteBits(STALE_BLOCK), ByteBits(STALE_BLOCK) + rest;
    assert z[3..] == a[3..] + rest;
    assert a[3..] == CodeBits(FIXED_LIT, 257) + CodeBits(FIXED_DIST, 0) + CodeBits(FIXED_LIT, 256) + [false, false];
    Five(CodeBits(FIXED_LIT, 257), CodeBits(FIXED_DIST, 0), CodeBits(FIXED_LIT, 256), [false, false], rest);
    assert z[1..3] == [true, false];
    LowOne();
  }

  lemma LowOne()
    ensures FromLow([true, false]) == 1
  {
    assert [true, false][1..] == [false] && [false][1..] == [];
  }

  lemma StaleBytes()
    ensures ByteBits(STALE_BLOCK) == [true, true, false, false, false, false, false, false]
                                     + [false, true, false, false, false, false, false, false]
                                     + [false, false, false, false, false, false, false, false]
  {
    hide LowBits;
    StaleLow();
    NextByteBits(STALE_BLOCK);
    NextByteBits(STALE_BLOCK[1..]);
    NextByteBits(STALE_BLOCK[1..][1..]);
    NoByteBits();
  }

  lemma StaleLow()
    ensures LowBits(3, 8) == [true, true, false, false, false, false, false, false]
    ensures LowBits(2, 8) == [false, true, false, false, false, false, false, false]
    ensures LowBits(0, 8) == [false, false, false, false, false, false, false, false]
  {
    assert LowBits(0, 2) == [false, false];
    assert LowBits(0, 4) == [false, false, false, false];
    assert LowBits(0, 6) == [false, false, false, false, false, false];
    assert LowBits(1, 7) == [true, false, false, false, false, false, false];
  }

  lemma StaleSteps(rest: seq<bool>)
    ensures var end := CodeBits(FIXED_LIT, 256) + rest;
            Next(FIXED_LIT, FIXED_DIST, CodeBits(FIXED_LIT, 257) + (CodeBits(FIXED_DIST, 0) + end)) == Match(3, 1, end)
            && Next(FIXED_LIT, FIXED_DIST, end) == End(rest)
  {
    hide CodeBits, Lookup, Copies, PrefixCode;
    var end := CodeBits(FIXED_LIT, 256) + rest;
    FixedPrefix();
    CanonicalDecode(FIXED_LIT, 257, CodeBits(FIXED_DIST, 0) + end);
    CanonicalDecode(FIXED_DIST, 0, end);
    CanonicalDecode(FIXED_LIT, 256, rest);
    NoExtra(3, CodeBits(FIXED_DIST, 0) + end);
    NoExtra(1, end);
  }

  lemma NoExtra(base: nat, z: seq<bool>)
    ensures Extra(base, 0, z) == Ok(base, z)
  {
    NoLow(z[..0]);
  }

  lemma StaleBlocks(rest: seq<bool>, win: seq<Byte>, full: bool)
    requires |win| == WINDOW
    ensures var z, b := ByteBits(STALE_BLOCK) + rest, win[WINDOW - 1];
            Blocks(z, win) == Inflated.Done(win + [b, b, b], [false, false] + rest) && !LawfulBlocks(z, 0, full)
  {
    hide CodeBits, Copies, ByteBits, FromLow, Next, GzipMembers.Stored, Dynamic, Copy, BlockSize, LawfulTables, Tables;
    StaleBits(rest);
    StaleSteps([false, false] + rest);
    var b, end := win[WINDOW - 1], CodeBits(FIXED_LIT, 256) + ([false, false] + rest);
    CopyLast(win, b, 3);
    assert Copies(b, 3) == [b, b, b];
    assert Expand(FIXED_LIT, FIXED_DIST, end, win + [b, b, b]) == Inflated.Done(win + [b, b, b], [false, false] + rest);
  }

  lemma {:induction false} CopyLast(hist: seq<Byte>, b: Byte, n: nat)
    requires hist != [] && hist[|hist| - 1] == b
    ensures Copy(hist, n, 1) == hist + Copies(b, n)
    decreases n
  {
    if n == 0 {
      assert hist + Copies(b, 0) == hist;
    } else {
      CopyLast(hist + [b], b, n - 1);
      assert [b] + Copies(b, n - 1) == Copies(b, n);
      Regroup(hist, [b], Copies(b, n - 1));
    }
  }

  /** Section 3.2.3 of RFC 1951 forbids this file; the code accepts it, and gives out what the window held before. */
  lemma StaleFile(t: seq<nat>, win: seq<Byte>, full: bool)
    requires Table(t) && |win| == WINDOW
    ensures var b := win[WINDOW - 1];
            var data := [b, b, b];
            var file := GZIP_HEADER + STALE_BLOCK + (LittleBytes(Finalise(SumLow(t, data)), 4) + LittleBytes(|data| % WORD, 4));
            Gunzip(t, ByteBits(file), true, [], win) == Inflated.Done(data, []) && Standard(t, ByteBits(file), true, [], full).Error?
  {
    hide FromLow, ByteBits, LittleBytes, SumLow, Finalise, Blocks, Checked, SkipHeader, Turned, Table, LawfulBlocks, NoReserved, Standard, MemberEnd;
    var b := win[WINDOW - 1];
    var data := [b, b, b];
    var trailer := LittleBytes(Finalise(SumLow(t, data)), 4) + LittleBytes(|data| % WORD, 4);
    var file := GZIP_HEADER + STALE_BLOCK + trailer;
    var body := ByteBits(STALE_BLOCK) + ByteBits(trailer);
    ByteBitsAppend(GZIP_HEADER + STALE_BLOCK, trailer);
    ByteBitsAppend(GZIP_HEADER, STALE_BLOCK);
    Regroup(ByteBits(GZIP_HEADER), ByteBits(STALE_BLOCK), ByteBits(trailer));
    HeaderRead(body);
    StaleBlocks(ByteBits(trailer), win, full);
    assert (win + data)[WINDOW..] == data;
    StaleChecked(t, data, trailer);
    assert [] + data == data;
    StandardIs(t, ByteBits(file), true, [], win, full);
  }

  lemma StaleChecked(t: seq<nat>, data: seq<Byte>, trailer: seq<Byte>)
    requires Table(t) && trailer == LittleBytes(Finalise(SumLow(t, data)), 4) + LittleBytes(|data| % WORD, 4)
    ensures Checked(t, data, [false, false] + ByteBits(trailer)) == Inflated.Done(data, [])
  {
    hide FromLow, ByteBits, LittleBytes, SumLow, Finalise, Bytes, Little;
    CheckedRead(t, data, []);
    assert ByteBits(trailer) + [] == ByteBits(trailer);
    var z := [false, false] + ByteBits(trailer);
    assert |ByteBits(trailer)| == 64 && |z| == 66;
    assert z[2..] == ByteBits(trailer);
    assert Aligned(z) == ByteBits(trailer) && Aligned(ByteBits(trailer)) == ByteBits(trailer);
  }
}
