/** Reading and writing whole gzip files (libc/gzip.c:340-435, 653-797, 847-936). */
module GzipFiles {
  import opened Words
  import opened Crc
  import opened Endian
  import opened GzipBits
  import opened GzipTree
  import opened GzipInflate
  import opened GzipTables
  import opened GzipMembers

  // ---- bytes ----

  lemma BytesNext(z: seq<bool>, n: nat, c: Byte)
    requires 0 < n && 8 * n <= |z| && c == FromLow(z[..8])
    ensures Bytes(z, n) == [c] + Bytes(z[8..], n - 1)
  {
  }

  /** in_read_bytes, between whole bytes. */
  method ReadBytes(bs: Source, n: nat) returns (ok: bool, s: seq<Byte>)
    requires bs.Valid() && bs.bitcnt == 0
    modifies bs
    ensures bs.Valid() && bs.bitcnt == 0 && ok == (8 * n <= |old(bs.Rest())|)
    ensures ok ==> s == Bytes(old(bs.Rest()), n) && bs.Rest() == old(bs.Rest())[8 * n..]
  {
    hide Source.Valid, Source.Rest, FromLow, Bytes;
    ghost var z := bs.Rest();
    s := [];
    for i := 0 to n
      invariant bs.Valid() && bs.bitcnt == 0 && 8 * i <= |z| && bs.Rest() == z[8 * i..]
      invariant 8 * n <= |z| ==> Bytes(z, n) == s + Bytes(z[8 * i..], n - i)
    {
      ghost var now := z[8 * i..];
      var c;
      ok, c := bs.NextByte();
      if !ok { return; }
      assert now[8..] == z[8 * (i + 1)..];
      if 8 * n <= |z| {
        BytesNext(now, n - i, c);
        Regroup(s, [c], Bytes(now[8..], n - i - 1));
      }
      s := s + [c];
    }
    NoBytes(z[8 * n..]);
    assert s + [] == s;
    ok := true;
  }

  lemma NoBytes(z: seq<bool>)
    ensures Bytes(z, 0) == []
  {
  }

  // ---- gzip_skip_header ----

  /** gzip_skip_cstring */
  method PassString(bs: Source) returns (ok: bool)
    requires bs.Valid() && bs.bitcnt == 0
    modifies bs
    ensures bs.Valid() && bs.bitcnt == 0
    ensures SkipString(old(bs.Rest())) == if ok then Ok((), bs.Rest()) else Failed
  {
    hide Source.Valid, Source.Rest, FromLow;
    ghost var z := bs.Rest();
    while true
      invariant bs.Valid() && bs.bitcnt == 0 && SkipString(z) == SkipString(bs.Rest())
      decreases |bs.Rest()|
    {
      var c;
      ok, c := bs.NextByte();
      if !ok || c == 0 { return; }
    }
  }

  method PassExtra(bs: Source) returns (ok: bool)
    requires bs.Valid() && bs.bitcnt == 0
    modifies bs
    ensures bs.Valid() && bs.bitcnt == 0
    ensures SkipExtra(old(bs.Rest())) == if ok then Ok((), bs.Rest()) else Failed
  {
    hide Source.Valid, Source.Rest, FromLow, Bytes, Little;
    var tmp;
    ok, tmp := ReadBytes(bs, 2);
    if !ok { return; }
    TwoBytes(tmp);
    var xlen := Half(tmp[0], tmp[1]);
    ok, tmp := ReadBytes(bs, xlen);
  }

  function Half(lo: nat, hi: nat): nat {
    lo + 256 * hi
  }

  lemma TwoBytes(s: seq<Byte>)
    requires |s| == 2
    ensures Little(s) == Half(s[0], s[1])
  {
    assert s[1..][1..] == [];
    assert Little(s[1..]) == s[1];
  }

  /** The optional fields, in the order of the header. */
  method PassFields(bs: Source, flags: Byte) returns (ok: bool)
    requires bs.Valid() && bs.bitcnt == 0
    modifies bs
    ensures bs.Valid() && bs.bitcnt == 0
    ensures SkipFields(old(bs.Rest()), flags) == if ok then Ok((), bs.Rest()) else Failed
  {
    hide Source.Valid, Source.Rest, FromLow, Bytes, Little, SkipString, SkipExtra, Flag;
    if Flag(flags, 2) {
      ok := PassExtra(bs);
      if !ok { return; }
    }
    if Flag(flags, 3) {
      ok := PassString(bs);
      if !ok { return; }
    }
    if Flag(flags, 4) {
      ok := PassString(bs);
      if !ok { return; }
    }
    if Flag(flags, 1) {
      var tmp;
      ok, tmp := ReadBytes(bs, 2);
      if !ok { return; }
    }
    ok := true;
  }

  method PassHeader(bs: Source) returns (ok: bool)
    requires bs.Valid() && bs.bitcnt == 0
    modifies bs
    ensures bs.Valid() && bs.bitcnt == 0
    ensures SkipHeader(old(bs.Rest())) == if ok then Ok((), bs.Rest()) else Failed
  {
    hide Source.Valid, Source.Rest, FromLow, Bytes, SkipFields;
    var fixed;
    ok, fixed := ReadBytes(bs, 10);
    if !ok { return; }
    if fixed[0] != 0x1f || fixed[1] != 0x8b { return false; }
    if fixed[2] != 8 { return false; }
    ok := PassFields(bs, fixed[3]);
  }

  // ---- blocks ----

  lemma FourBytes(z: seq<bool>)
    requires |z| >= 32
    ensures var h := Bytes(z, 4); Bytes(z, 2) == [h[0], h[1]] && Bytes(z[16..], 2) == [h[2], h[3]]
  {
    hide FromLow;
    assert z[8..][8..] == z[16..] && z[16..][8..] == z[24..] && z[24..] == z[16..][8..];
    NoBytes(z[16..]);
    NoBytes(z[32..]);
    NoBytes(z[24..][8..]);
  }

  /** inflate_stored */
  method InflateStored(bs: Source, m: Member) returns (ok: bool)
    requires bs.Valid() && m.Valid()
    modifies bs, m, m.win
    ensures bs.Valid() && m.Valid() && Follows(m, old(m.out), old(m.all))
    ensures Stored(old(bs.Rest()), m.stale + old(m.out)) == if ok then Done(m.stale + m.out, bs.Rest()) else Error
  {
    hide Source.Valid, Source.Rest, Member.Valid, FromLow, Bytes, Little, Aligned;
    ghost var out0, all0 := m.out, m.all;
    assert out0[|out0|..] == [];
    bs.Align();
    ghost var z := bs.Rest();
    var hdr;
    ok, hdr := ReadBytes(bs, 4);
    if !ok { return; }
    FourBytes(z);
    TwoBytes([hdr[0], hdr[1]]);
    TwoBytes([hdr[2], hdr[3]]);
    var len, nlen := Half(hdr[0], hdr[1]), Half(hdr[2], hdr[3]);
    if 0xffff - len != nlen { return false; }
    ok := CopyStored(bs, m, len);
    if ok {
      assert z[32..][8 * len..] == z[32 + 8 * len..];
      Regroup(m.stale, out0, Bytes(z[32..], len));
    }
  }

  method CopyStored(bs: Source, m: Member, len: nat) returns (ok: bool)
    requires bs.Valid() && m.Valid() && bs.bitcnt == 0
    modifies bs, m, m.win
    ensures bs.Valid() && m.Valid() && Follows(m, old(m.out), old(m.all)) && ok == (8 * len <= |old(bs.Rest())|)
    ensures ok ==> m.out == old(m.out) + Bytes(old(bs.Rest()), len) && bs.Rest() == old(bs.Rest())[8 * len..]
  {
    hide Source.Valid, Source.Rest, Member.Valid, FromLow, Bytes;
    ghost var z, out0, all0 := bs.Rest(), m.out, m.all;
    assert out0[|out0|..] == [];
    for i := 0 to len
      invariant bs.Valid() && bs.bitcnt == 0 && m.Valid() && 8 * i <= |z| && bs.Rest() == z[8 * i..] && Follows(m, out0, all0)
      invariant 8 * len <= |z| ==> out0 + Bytes(z, len) == m.out + Bytes(z[8 * i..], len - i)
    {
      ghost var now, before, allBefore := z[8 * i..], m.out, m.all;
      var c;
      ok, c := bs.NextByte();
      if !ok { return; }
      assert now[8..] == z[8 * (i + 1)..];
      if 8 * len <= |z| {
        BytesNext(now, len - i, c);
        Regroup(m.out, [c], Bytes(now[8..], len - i - 1));
      }
      m.Put(c);
      assert m.out[|before|..] == [c];
      StillFollows(out0, all0, before, allBefore, m.out, m.all);
    }
    NoBytes(z[8 * len..]);
    assert m.out + [] == m.out;
    ok := true;
  }

  method InflateBlock(bs: Source, trees: FixedTrees, m: Member, btype: nat) returns (ok: bool)
    requires bs.Valid() && m.Valid() && trees.Valid()
    modifies bs, m, m.win
    modifies trees, trees.lit, trees.lit.left, trees.lit.right, trees.lit.sym, trees.dist, trees.dist.left, trees.dist.right, trees.dist.sym
    ensures bs.Valid() && m.Valid() && trees.Valid() && Follows(m, old(m.out), old(m.all))
    ensures |m.stale| == WINDOW && Refines(Block(btype, old(bs.Rest()), m.stale + old(m.out)), ok, m.stale + m.out, bs.Rest())
  {
    hide Source.Valid, Source.Rest, Member.Valid, FixedTrees.Valid, GzipMembers.Stored, Fixed, Dynamic;
    StaleFull(m);
    if btype == 0 {
      ok := InflateStored(bs, m);
    } else if btype == 1 {
      ok := InflateFixed(bs, trees, m);
    } else if btype == 2 {
      ok := InflateDynamic(bs, m);
    } else {
      assert m.out[|m.out|..] == [];
      ok := false;
    }
  }

  method InflateBlocks(bs: Source, trees: FixedTrees, m: Member) returns (ok: bool)
    requires bs.Valid() && m.Valid() && trees.Valid()
    modifies bs, m, m.win
    modifies trees, trees.lit, trees.lit.left, trees.lit.right, trees.lit.sym, trees.dist, trees.dist.left, trees.dist.right, trees.dist.sym
    ensures bs.Valid() && m.Valid() && trees.Valid() && Follows(m, old(m.out), old(m.all))
    ensures |m.stale| == WINDOW && Refines(Blocks(old(bs.Rest()), m.stale + old(m.out)), ok, m.stale + m.out, bs.Rest())
  {
    hide Source.Valid, Source.Rest, Member.Valid, FixedTrees.Valid, Block, FromLow;
    StaleFull(m);
    ghost var spec, out0, all0 := Blocks(bs.Rest(), m.stale + m.out), m.out, m.all;
    assert out0[|out0|..] == [];
    while true
      invariant bs.Valid() && m.Valid() && trees.Valid() && Follows(m, out0, all0) && spec == Blocks(bs.Rest(), m.stale + m.out)
      decreases |bs.Rest()|
    {
      ghost var z, before, allBefore := bs.Rest(), m.out, m.all;
      var last, btype;
      ok, last := bs.Read(1);
      if !ok { return; }
      ok, btype := bs.Read(2);
      if !ok { return; }
      HeaderBits(z);
      ok := InflateBlock(bs, trees, m, btype);
      StillFollows(out0, all0, before, allBefore, m.out, m.all);
      if !ok { return; }
      if last != 0 { return; }
    }
  }

  lemma HeaderBits(z: seq<bool>)
    requires |z| >= 3
    ensures (FromLow(z[..1]) != 0 <==> z[0]) && z[1..][..2] == z[1..3] && z[1..][2..] == z[3..]
  {
    assert z[..1][1..] == [];
  }

  // ---- members ----

  method CheckTrailer(bs: Source, m: Member) returns (ok: bool)
    requires bs.Valid() && m.Valid()
    modifies bs
    ensures bs.Valid() && bs.bitcnt == 0
    ensures Checked(m.table, m.out, old(bs.Rest())) == if ok then Done(m.out, bs.Rest()) else Error
  {
    hide Source.Valid, Source.Rest, FromLow, Bytes, Little, Aligned, Keeps, SumLow;
    bs.Align();
    var trailer;
    ok, trailer := ReadBytes(bs, 8);
    if !ok { return; }
    var crc := Finalise(m.crc);
    if Little(trailer[..4]) != crc { return false; }
    if Little(trailer[4..]) != m.usize { return false; }
  }

  method InflateMember(bs: Source, trees: FixedTrees, m: Member) returns (ok: bool)
    requires bs.Valid() && bs.bitcnt == 0 && m.Valid() && m.out == [] && trees.Valid()
    modifies bs, m, m.win
    modifies trees, trees.lit, trees.lit.left, trees.lit.right, trees.lit.sym, trees.dist, trees.dist.left, trees.dist.right, trees.dist.sym
    ensures bs.Valid() && m.Valid() && trees.Valid() && (ok ==> bs.bitcnt == 0) && m.all == old(m.all) + m.out
    ensures |m.stale| == WINDOW && Refines(MemberOf(m.table, old(bs.Rest()), m.stale), ok, m.out, bs.Rest())
  {
    hide Source.Valid, Source.Rest, Member.Valid, FixedTrees.Valid, SkipHeader, Blocks, Checked;
    StaleFull(m);
    MemberTable(m);
    ok := PassHeader(bs);
    if !ok {
      assert m.all + [] == m.all;
      return;
    }
    assert m.stale + [] == m.stale;
    ok := InflateBlocks(bs, trees, m);
    assert m.out[0..] == m.out && (m.stale + m.out)[WINDOW..] == m.out;
    if !ok { return; }
    ok := CheckTrailer(bs, m);
  }

  lemma MemberTable(m: Member)
    requires m.Valid()
    ensures Table(m.table)
  {
  }

  // ---- aux_gzip_inflate_fd ----

  /** Zero bytes before a member: the first byte behind them is looked at and put back. */
  method SkipPadding(bs: Source) returns (ok: bool, c: Byte)
    requires bs.Valid() && bs.bitcnt == 0
    modifies bs
    ensures bs.Valid() && bs.bitcnt == 0 && bs.Rest() == SkipZeros(old(bs.Rest())) && ok == (|bs.Rest()| >= 8)
    ensures ok ==> c == FromLow(bs.Rest()[..8])
  {
    hide Source.Valid, Source.Rest, FromLow;
    ghost var z := bs.Rest();
    while true
      invariant bs.Valid() && bs.bitcnt == 0 && SkipZeros(z) == SkipZeros(bs.Rest())
      decreases |bs.Rest()|
    {
      ghost var now := bs.Rest();
      ok, c := bs.NextByte();
      if !ok { return; }
      if c != 0 {
        PutBack(bs, c, now);
        return;
      }
    }
  }

  method PutBack(bs: Source, c: Byte, ghost was: seq<bool>)
    requires bs.Valid() && bs.bitcnt == 0 && |was| >= 8 && c == FromLow(was[..8]) && bs.Rest() == was[8..]
    modifies bs
    ensures bs.Valid() && bs.bitcnt == 0 && bs.Rest() == was
  {
    hide LowBits, FromLow, ByteBits;
    NothingBefore(ByteBits(bs.input));
    NextByteBits([c] + bs.input);
    assert ([c] + bs.input)[1..] == bs.input;
    LowBitsFrom(was[..8]);
    assert was == was[..8] + was[8..];
    bs.input := [c] + bs.input;
    NothingBefore(ByteBits(bs.input));
  }

  lemma {:induction false} LowBitsFrom(b: seq<bool>)
    ensures LowBits(FromLow(b), |b|) == b
  {
    if b != [] { LowBitsFrom(b[1..]); }
  }

  /** The file is inflated exactly as specified, whatever the window holds at the start. */
  method Inflate(t: seq<nat>, input: seq<Byte>, win: array<Byte>) returns (ok: bool, out: seq<Byte>)
    requires Table(t) && win.Length == WINDOW
    modifies win
    ensures Gunzip(t, ByteBits(input), true, [], old(win[..])) == if ok then Done(out, []) else Error
  {
    hide Source.Valid, Source.Rest, Member.Valid, FixedTrees.Valid, FromLow, MemberOf, Table, Turned;
    var bs := new Source(input);
    var trees := new FixedTrees();
    var first := true;
    out := [];
    ghost var spec := Gunzip(t, ByteBits(input), true, [], win[..]);
    while true
      invariant bs.Valid() && bs.bitcnt == 0 && trees.Valid() && spec == Gunzip(t, bs.Rest(), first, out, win[..])
      invariant fresh(bs) && fresh(trees)
      invariant fresh(trees.lit) && fresh(trees.lit.left) && fresh(trees.lit.right) && fresh(trees.lit.sym)
      invariant fresh(trees.dist) && fresh(trees.dist.left) && fresh(trees.dist.right) && fresh(trees.dist.sym)
      decreases |bs.Rest()|
    {
      var c;
      ok, c := SkipPadding(bs);
      if !ok { return !first, out; }
      if c != 0x1f { return false, out; }
      var m := new Member(win, t, out);
      ok := InflateMember(bs, trees, m);
      if !ok { return; }
      WindowAfter(m);
      out := m.all;
      first := false;
    }
  }

  lemma WindowAfter(m: Member)
    requires m.Valid()
    ensures |m.stale| == WINDOW && m.win[..] == Turned(m.stale + m.out)
  {
    KeptWhole(m.win[..], m.stale + m.out);
  }

  // ---- aux_gzip_deflate_store_fd ----

  /** The checksum of a buffer, byte by byte. */
  method Digest(t: seq<nat>, crc: nat, buf: seq<Byte>, ghost before: seq<Byte>) returns (r: nat)
    requires Table(t) && crc == SumLow(t, before)
    ensures r == SumLow(t, before + buf)
  {
    hide UpdateLow, Table, SumLow;
    r := crc;
    assert before + buf[..0] == before;
    for i := 0 to |buf|
      invariant r < WORD && r == SumLow(t, before + buf[..i])
    {
      SumLowOne(t, before, buf, i);
      r := UpdateLow(t, r, buf[i]);
    }
    assert buf[..|buf|] == buf;
  }

  lemma SumLowOne(t: seq<nat>, before: seq<Byte>, buf: seq<Byte>, i: nat)
    requires Table(t) && i < |buf|
    ensures SumLow(t, before + buf[..i + 1]) == UpdateLow(t, SumLow(t, before + buf[..i]), buf[i])
  {
    hide UpdateLow, Table;
    var now := before + buf[..i + 1];
    assert now[..|now| - 1] == before + buf[..i] && now[|now| - 1] == buf[i];
  }

  /** A stored block with its header. */
  method WriteBlock(out: seq<Byte>, buf: seq<Byte>, final: bool) returns (r: seq<Byte>)
    requires |buf| <= 0xffff
    ensures r == out + BlockBytes(buf, final)
  {
    var n := |buf|;
    HalfBytes(n);
    HalfBytes(0xffff - n);
    var nlen := 0xffff - n;
    var hdr: seq<Byte> := [if final then 1 else 0, n % 256, n / 256 % 256, nlen % 256, nlen / 256 % 256];
    assert hdr == [hdr[0]] + LittleBytes(n, 2) + LittleBytes(nlen, 2);
    r := out + hdr;
    Regroup(out, hdr, buf);
    r := r + buf;
  }

  lemma HalfBytes(v: nat)
    ensures LittleBytes(v, 2) == [v % 256, v / 256 % 256]
  {
    assert LittleBytes(v / 256 / 256, 0) == [];
    assert LittleBytes(v / 256, 1) == [v / 256 % 256];
  }

  lemma WordBytes(v: nat)
    ensures LittleBytes(v, 4) == [v % 256, v / 256 % 256, v / 0x1_0000 % 256, v / 0x100_0000 % 256]
  {
    HalfBytes(v);
    HalfBytes(v / 256 / 256);
    assert v / 256 / 256 == v / 0x1_0000 && v / 0x1_0000 / 256 == v / 0x100_0000;
    assert LittleBytes(v / 256, 3) == [v / 256 % 256] + LittleBytes(v / 256 / 256, 2);
  }

  /**
   * The input is what successive reads return; each becomes one stored block, which is the last one when the
   * next read finds nothing more.
   */
  method Store(t: seq<nat>, chunks: seq<seq<Byte>>) returns (out: seq<Byte>)
    requires Table(t) && Reads(chunks)
    ensures out == MemberBytes(t, chunks)
  {
    hide Table, LittleBytes, Finalise, SumLow, BlockBytes, Joined;
    out := GZIP_HEADER;
    var crc, usize := INITIAL, 0;
    var next := 0;
    ghost var done: seq<Byte> := [];
    NothingSummed(t, chunks);
    var buf := if next < |chunks| then chunks[next] else [];
    if |buf| == 0 {
      out := WriteBlock(out, [], true);
      JoinedNone(chunks);
    }
    while |buf| > 0
      invariant next <= |chunks| && buf == (if next < |chunks| then chunks[next] else [])
      invariant crc == SumLow(t, done) && usize == |done| % WORD && done + Joined(chunks[next..]) == Joined(chunks)
      invariant next < |chunks| ==> out + BlocksBytes(chunks[next..]) == GZIP_HEADER + BlocksBytes(chunks)
      invariant next == |chunks| ==> out == GZIP_HEADER + BlocksBytes(chunks)
      decreases |chunks| - next
    {
      ghost var rest := chunks[next..];
      assert rest[1..] == chunks[next + 1..];
      var nextBuf := if next + 1 < |chunks| then chunks[next + 1] else [];
      var final := |nextBuf| == 0;
      ghost var before := out;
      out := WriteBlock(out, buf, final);
      StoredOne(before, rest);
      crc := Digest(t, crc, buf, done);
      usize := (usize + |buf|) % WORD;
      SizeOn(|done|, |buf|);
      JoinedNext(done, rest);
      done := done + buf;
      buf, next := nextBuf, next + 1;
      if final { break; }
    }
    JoinedNone(chunks[next..]);
    assert done + [] == done;
    crc := Finalise(crc);
    WordBytes(crc);
    WordBytes(usize);
    out := out + [crc % 256, crc / 256 % 256, crc / 0x1_0000 % 256, crc / 0x100_0000 % 256]
               + [usize % 256, usize / 256 % 256, usize / 0x1_0000 % 256, usize / 0x100_0000 % 256];
  }

  lemma NothingSummed(t: seq<nat>, chunks: seq<seq<Byte>>)
    requires Table(t)
    ensures SumLow(t, []) == INITIAL && chunks[0..] == chunks && [] + Joined(chunks) == Joined(chunks)
  {
  }

  lemma JoinedNone(chunks: seq<seq<Byte>>)
    ensures chunks == [] ==> Joined(chunks) == []
  {
  }

  lemma JoinedNext(done: seq<Byte>, rest: seq<seq<Byte>>)
    requires rest != []
    ensures done + rest[0] + Joined(rest[1..]) == done + Joined(rest)
  {
  }

  lemma StoredOne(before: seq<Byte>, rest: seq<seq<Byte>>)
    requires rest != [] && Reads(rest)
    ensures if |rest| == 1 then before + BlocksBytes(rest) == before + BlockBytes(rest[0], true)
            else before + BlocksBytes(rest) == before + BlockBytes(rest[0], false) + BlocksBytes(rest[1..])
  {
    hide BlockBytes;
    if |rest| > 1 {
      assert BlocksBytes(rest) == BlockBytes(rest[0], false) + BlocksBytes(rest[1..]);
      Regroup(before, BlockBytes(rest[0], false), BlocksBytes(rest[1..]));
    }
  }

  lemma SizeOn(n: nat, k: nat)
    ensures (n % WORD + k) % WORD == (n + k) % WORD
  {
  }

  /**
   * Members written one after the other, each from its own input however its reads fall, with any number of zero bytes
   * before each and at the end: inflating the whole gives the inputs, joined. Only a file without members is refused.
   */
  method Restore(t: seq<nat>, items: seq<Item>, last: nat, win: array<Byte>) returns (ok: bool, data: seq<Byte>)
    requires Table(t) && win.Length == WINDOW && forall i :: 0 <= i < |items| ==> Reads(items[i].chunks)
    modifies win
    ensures ok == (items != [])
    ensures ok ==> data == FileData(items)
  {
    hide Table, MemberBytes, Gunzip, Joined, Reads;
    var file := [];
    for i := 0 to |items|
      invariant file + FileBytes(t, items[i..], last) == FileBytes(t, items, last)
    {
      var member := Store(t, items[i].chunks);
      NextMember(file, t, items[i..], last);
      assert items[i..][1..] == items[i + 1..];
      file := file + Copies(0, items[i].zeros) + member;
    }
    assert FileBytes(t, items[|items|..], last) == Copies(0, last);
    if items == [] { OnlyZeros(t, last, win[..]); } else { FileRead(t, items, last, true, [], win[..]); }
    assert [] + FileData(items) == FileData(items);
    ok, data := Inflate(t, file + Copies(0, last), win);
  }

  lemma NextMember(file: seq<Byte>, t: seq<nat>, items: seq<Item>, last: nat)
    requires Table(t) && items != [] && forall i :: 0 <= i < |items| ==> Reads(items[i].chunks)
    ensures file + Copies(0, items[0].zeros) + MemberBytes(t, items[0].chunks) + FileBytes(t, items[1..], last) == file + FileBytes(t, items, last)
  {
    hide MemberBytes;
    var zeros, member, later := Copies(0, items[0].zeros), MemberBytes(t, items[0].chunks), FileBytes(t, items[1..], last);
    Regroup(file, zeros + member, later);
    Regroup(file, zeros, member);
  }

  lemma OnlyZeros(t: seq<nat>, last: nat, win: seq<Byte>)
    requires Table(t) && |win| == WINDOW
    ensures Gunzip(t, ByteBits(Copies(0, last)), true, [], win) == Error
  {
    hide ByteBits, FromLow;
    ZerosSkipped(last, []);
    assert ByteBits(Copies(0, last)) + [] == ByteBits(Copies(0, last));
  }
}
