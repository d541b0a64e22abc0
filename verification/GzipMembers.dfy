/** Stored blocks, members and files (libc/gzip.c:340-435, 653-797, 847-936), per section 3.2.4 of RFC 1951 and section 2 of RFC 1952. */
module GzipMembers {
  import opened Words
  import opened BitStream
  import opened Crc
  import opened Endian
  import opened GzipBits
  import opened GzipTree
  import opened GzipInflate
  import opened GzipTables

  // ---- bytes in a bit stream ----

  /** The next n bytes of an aligned stream. */
  ghost function Bytes(z: seq<bool>, n: nat): (s: seq<Byte>)
    requires 8 * n <= |z|
    ensures |s| == n
    decreases n
  {
    if n == 0 then []
    else
      FromLowBound(z[..8]);
      Pow2Values();
      [FromLow(z[..8])] + Bytes(z[8..], n - 1)
  }

  lemma {:induction false} BytesBack(s: seq<Byte>, z: seq<bool>)
    ensures Bytes(ByteBits(s) + z, |s|) == s && (ByteBits(s) + z)[8 * |s|..] == z
    decreases |s|
  {
    hide LowBits, FromLow;
    if s != [] {
      var w := ByteBits(s) + z;
      var rest := ByteBits(s[1..]) + z;
      assert w[..8] == LowBits(s[0], 8) && w[8..] == rest;
      Pow2Values();
      FromLowBits(s[0], 8);
      BytesBack(s[1..], z);
    }
  }

  lemma {:induction false} BytesOf(z: seq<bool>, n: nat)
    requires |z| == 8 * n
    ensures ByteBits(Bytes(z, n)) == z
    decreases n
  {
    hide LowBits, FromLow;
    if n > 0 {
      BytesOf(z[8..], n - 1);
      LowBitsBack(z[..8]);
      assert z[..8] + z[8..] == z;
    }
  }

  // ---- what a file stands for ----

  /** inflate_stored */
  ghost function Stored(z0: seq<bool>, out: seq<Byte>): (r: Inflated)
    ensures r.Done? ==> out <= r.out && |r.rest| <= |z0|
  {
    var z := Aligned(z0);
    if |z| < 32 then Error
    else
      var len, nlen := Little(Bytes(z, 2)), Little(Bytes(z[16..], 2));
      if 0xffff - len != nlen || |z| < 32 + 8 * len then Error
      else Done(out + Bytes(z[32..], len), z[32 + 8 * len..])
  }

  /** One block, after its three header bits; the history starts with WINDOW bytes from before the member. */
  ghost function Block(btype: nat, z: seq<bool>, hist: seq<Byte>): (r: Inflated)
    requires |hist| >= WINDOW
    ensures r.Done? ==> hist <= r.out && |r.rest| <= |z|
  {
    if btype == 0 then Stored(z, hist)
    else if btype == 1 then Fixed(z, hist)
    else if btype == 2 then Dynamic(z, hist)
    else Error
  }

  /** The blocks of a member, up to the one marked as the last. */
  ghost function Blocks(z: seq<bool>, hist: seq<Byte>): (r: Inflated)
    requires |hist| >= WINDOW
    ensures r.Done? ==> hist <= r.out && |r.rest| < |z|
    decreases |z|
  {
    if |z| < 3 then Error
    else
      match Block(FromLow(z[1..3]), z[3..], hist)
      case Error => Error
      case Done(hist', rest) => if z[0] then Done(hist', rest) else Blocks(rest, hist')
  }

  /** The bytes up to and including the next zero byte. */
  ghost function SkipString(z: seq<bool>): (r: Parsed<()>)
    ensures r.Ok? ==> |r.rest| <= |z|
    decreases |z|
  {
    if |z| < 8 then Failed else if FromLow(z[..8]) == 0 then Ok((), z[8..]) else SkipString(z[8..])
  }

  ghost function SkipBytes(z: seq<bool>, n: nat): (r: Parsed<()>)
    ensures r.Ok? ==> |r.rest| <= |z|
  {
    if |z| < 8 * n then Failed else Ok((), z[8 * n..])
  }

  ghost function SkipExtra(z: seq<bool>): (r: Parsed<()>)
    ensures r.Ok? ==> |r.rest| <= |z|
  {
    if |z| < 16 then Failed else SkipBytes(z[16..], Little(Bytes(z, 2)))
  }

  predicate Flag(flags: Byte, k: nat) {
    flags / Pow2(k) % 2 == 1
  }

  /** The optional fields of a header: extra field, name, comment, header checksum. */
  ghost function SkipFields(z: seq<bool>, flags: Byte): (r: Parsed<()>)
    ensures r.Ok? ==> |r.rest| <= |z|
  {
    var r1 := if Flag(flags, 2) then SkipExtra(z) else Ok((), z);
    if r1.Failed? then Failed
    else
      var r2 := if Flag(flags, 3) then SkipString(r1.rest) else r1;
      if r2.Failed? then Failed
      else
        var r3 := if Flag(flags, 4) then SkipString(r2.rest) else r2;
        if r3.Failed? then Failed
        else if Flag(flags, 1) then SkipBytes(r3.rest, 2)
        else r3
  }

  /** gzip_skip_header */
  ghost function SkipHeader(z: seq<bool>): (r: Parsed<()>)
    ensures r.Ok? ==> |r.rest| < |z|
  {
    if |z| < 80 then Failed
    else
      var fixed := Bytes(z, 10);
      if fixed[0] != 0x1f || fixed[1] != 0x8b || fixed[2] != 8 then Failed else SkipFields(z[80..], fixed[3])
  }

  /** The checksum and size behind the blocks must fit the data. */
  ghost function Checked(t: seq<nat>, out: seq<Byte>, rest: seq<bool>): (r: Inflated)
    requires Table(t)
    ensures r.Done? ==> r.out == out && |r.rest| <= |rest|
  {
    var tail := Aligned(rest);
    if |tail| < 64 then Error
    else
      var trailer := Bytes(tail, 8);
      if Little(trailer[..4]) != Finalise(SumLow(t, out)) || Little(trailer[4..]) != |out| % WORD then Error
      else Done(out, tail[64..])
  }

  /** A member: header, blocks, trailer. */
  ghost function MemberOf(t: seq<nat>, z: seq<bool>, win: seq<Byte>): (r: Inflated)
    requires Table(t) && |win| == WINDOW
    ensures r.Done? ==> |r.rest| < |z|
  {
    match SkipHeader(z)
    case Failed => Error
    case Ok(_, body) =>
      match Blocks(body, win)
      case Error => Error
      case Done(hist, rest) => Checked(t, hist[WINDOW..], rest)
  }

  ghost function SkipZeros(z: seq<bool>): (r: seq<bool>)
    ensures |r| <= |z|
    ensures |r| >= 8 ==> FromLow(r[..8]) != 0
    decreases |z|
  {
    if |z| < 8 || FromLow(z[..8]) != 0 then z else SkipZeros(z[8..])
  }

  /** aux_gzip_inflate_fd: members one after the other, zero bytes between them, at least one. The window passes from each to the next. */
  ghost function Gunzip(t: seq<nat>, z: seq<bool>, first: bool, all: seq<Byte>, win: seq<Byte>): (r: Inflated)
    requires Table(t) && |win| == WINDOW
    decreases |z|
  {
    var z' := SkipZeros(z);
    if |z'| < 8 then (if first then Error else Done(all, []))
    else if FromLow(z'[..8]) != 0x1f then Error
    else
      match MemberOf(t, z', win)
      case Error => Error
      case Done(out, rest) => Gunzip(t, rest, false, all + out, Turned(win + out))
  }

  // ---- what the writer writes ----

  const GZIP_HEADER: seq<Byte> := [0x1f, 0x8b, 0x08, 0x00, 0x00, 0x00, 0x00, 0x00, 0x00, 0x03]
  const CHUNK := 4096

  /** Results of successive reads: never empty, at most a buffer full. */
  ghost predicate Reads(chunks: seq<seq<Byte>>) {
    forall i :: 0 <= i < |chunks| ==> 0 < |chunks[i]| <= CHUNK
  }

  ghost function BlockBytes(chunk: seq<Byte>, final: bool): seq<Byte>
    requires |chunk| <= 0xffff
  {
    [if final then 1 else 0] + LittleBytes(|chunk|, 2) + LittleBytes(0xffff - |chunk|, 2) + chunk
  }

  /** One stored block for each read, an empty one if there is nothing. */
  ghost function BlocksBytes(chunks: seq<seq<Byte>>): seq<Byte>
    requires Reads(chunks)
    decreases |chunks|
  {
    if chunks == [] then BlockBytes([], true)
    else if |chunks| == 1 then BlockBytes(chunks[0], true)
    else BlockBytes(chunks[0], false) + BlocksBytes(chunks[1..])
  }

  ghost function MemberBytes(t: seq<nat>, chunks: seq<seq<Byte>>): seq<Byte>
    requires Table(t) && Reads(chunks)
  {
    var data := Joined(chunks);
    GZIP_HEADER + BlocksBytes(chunks) + LittleBytes(Finalise(SumLow(t, data)), 4) + LittleBytes(|data| % WORD, 4)
  }

  // ---- reading it back ----

  lemma BlockHeaderBits(final: bool, rest: seq<bool>)
    ensures var z := LowBits(if final then 1 else 0, 8) + rest;
            z[0] == final && FromLow(z[1..3]) == 0 && |z[3..]| == 5 + |rest| && z[8..] == rest
  {
    var v := if final then 1 else 0;
    var z := LowBits(v, 8) + rest;
    LowBitsNext(v, 8);
    assert LowBits(0, 7)[0] == false && LowBits(0, 7)[1] == false by { assert LowBits(0, 7) == [false] + ([false] + LowBits(0, 5)); }
    assert z[1] == false && z[2] == false;
    assert z[1..3] == [false, false];
    assert FromLow([false, false]) == 0 by { assert [false, false][1..] == [false] && [false][1..] == []; }
  }

  /** A stored block is read back: its bytes join the output, and the stream goes on behind it. */
  lemma StoredRead(chunk: seq<Byte>, final: bool, out: seq<Byte>, rest: seq<bool>)
    requires |chunk| <= 0xffff && |rest| % 8 == 0
    ensures var z := ByteBits(BlockBytes(chunk, final)) + rest;
            |z| >= 3 && z[0] == final && FromLow(z[1..3]) == 0 && Stored(z[3..], out) == Done(out + chunk, rest)
  {
    hide LowBits, FromLow, ByteBits, Bytes, Little, LittleBytes;
    var n := |chunk|;
    var lo, hi := LittleBytes(n, 2), LittleBytes(0xffff - n, 2);
    var b := ByteBits(chunk) + rest;
    var w := ByteBits(lo) + (ByteBits(hi) + b);
    var first: Byte := if final then 1 else 0;
    BlockSplit(chunk, final, rest);
    BlockHeaderBits(final, w);
    var z := LowBits(first, 8) + w;
    assert |w| == 32 + 8 * n + |rest|;
    assert |z[3..]| % 8 == 5;
    assert Aligned(z[3..]) == w by { assert z[3..][5..] == z[8..]; }
    Pow2Values();
    LittleBack(n, 2);
    LittleBack(0xffff - n, 2);
    BytesBack(lo, ByteBits(hi) + b);
    BytesBack(hi, b);
    BytesBack(chunk, rest);
    assert w[16..] == ByteBits(hi) + b && w[32..] == b by { assert w[16..][16..] == w[32..]; }
    assert w[32 + 8 * n..] == rest by { assert w[32..][8 * n..] == w[32 + 8 * n..]; }
  }

  lemma BlockSplit(chunk: seq<Byte>, final: bool, rest: seq<bool>)
    requires |chunk| <= 0xffff
    ensures ByteBits(BlockBytes(chunk, final)) + rest
            == LowBits(if final then 1 else 0, 8) + (ByteBits(LittleBytes(|chunk|, 2)) + (ByteBits(LittleBytes(0xffff - |chunk|, 2)) + (ByteBits(chunk) + rest)))
  {
    hide LowBits, ByteBits, LittleBytes;
    var first: seq<Byte> := [if final then 1 else 0];
    var lo, hi := LittleBytes(|chunk|, 2), LittleBytes(0xffff - |chunk|, 2);
    ByteBitsAppend(first + lo + hi, chunk);
    ByteBitsAppend(first + lo, hi);
    ByteBitsAppend(first, lo);
    NextByteBits(first);
    NoByteBits();
    assert first[1..] == [];
    assert LowBits(first[0], 8) + [] == LowBits(first[0], 8);
    Five(LowBits(first[0], 8), ByteBits(lo), ByteBits(hi), ByteBits(chunk), rest);
  }

  lemma Five(a: seq<bool>, b: seq<bool>, c: seq<bool>, d: seq<bool>, e: seq<bool>)
    ensures a + b + c + d + e == a + (b + (c + (d + e)))
  {
  }

  /** The blocks written for any sequence of reads are read back as the joined data. */
  lemma {:induction false} BlocksRead(chunks: seq<seq<Byte>>, out: seq<Byte>, rest: seq<bool>)
    requires Reads(chunks) && |rest| % 8 == 0 && |out| >= WINDOW
    ensures Blocks(ByteBits(BlocksBytes(chunks)) + rest, out) == Done(out + Joined(chunks), rest)
    decreases |chunks|
  {
    hide LowBits, FromLow, ByteBits, BlockBytes, Stored;
    if |chunks| <= 1 {
      var chunk := if chunks == [] then [] else chunks[0];
      StoredRead(chunk, true, out, rest);
      JoinedOne(chunks);
    } else {
      var first, later := BlockBytes(chunks[0], false), BlocksBytes(chunks[1..]);
      var w := ByteBits(later) + rest;
      ByteBitsAppend(first, later);
      Regroup(ByteBits(first), ByteBits(later), rest);
      assert |w| % 8 == 0;
      StoredRead(chunks[0], false, out, w);
      BlocksRead(chunks[1..], out + chunks[0], rest);
      Regroup(out, chunks[0], Joined(chunks[1..]));
    }
  }

  lemma JoinedOne(chunks: seq<seq<Byte>>)
    requires |chunks| <= 1
    ensures Joined(chunks) == if chunks == [] then [] else chunks[0]
  {
    if chunks != [] { assert Joined(chunks[1..]) == [] && chunks[0] + [] == chunks[0]; }
  }

  lemma HeaderRead(rest: seq<bool>)
    ensures SkipHeader(ByteBits(GZIP_HEADER) + rest) == Ok((), rest)
    ensures FromLow((ByteBits(GZIP_HEADER) + rest)[..8]) == 0x1f
  {
    hide LowBits, FromLow, ByteBits, Bytes;
    BytesBack(GZIP_HEADER, rest);
    FirstOf(GZIP_HEADER, rest);
    NoFlags();
  }

  lemma NoFlags()
    ensures !Flag(0, 1) && !Flag(0, 2) && !Flag(0, 3) && !Flag(0, 4)
  {
  }

  lemma FirstOf(s: seq<Byte>, rest: seq<bool>)
    requires s != []
    ensures |ByteBits(s) + rest| >= 8 && FromLow((ByteBits(s) + rest)[..8]) == s[0]
  {
    hide LowBits, FromLow;
    assert (ByteBits(s) + rest)[..8] == LowBits(s[0], 8);
    Pow2Values();
    FromLowBits(s[0], 8);
  }

  lemma CheckedRead(t: seq<nat>, data: seq<Byte>, rest: seq<bool>)
    requires Table(t) && |rest| % 8 == 0
    ensures var trailer := LittleBytes(Finalise(SumLow(t, data)), 4) + LittleBytes(|data| % WORD, 4);
            Checked(t, data, ByteBits(trailer) + rest) == Done(data, rest)
  {
    hide LowBits, FromLow, ByteBits, Bytes, Little, LittleBytes, SumLow, Finalise, Aligned;
    var crc, size := Finalise(SumLow(t, data)), |data| % WORD;
    var a, b := LittleBytes(crc, 4), LittleBytes(size, 4);
    var z := ByteBits(a + b) + rest;
    Pow2Values();
    LittleBack(crc, 4);
    LittleBack(size, 4);
    BytesBack(a + b, rest);
    WholeBytes(z, a + b, rest);
    CheckedWhole(t, data, z, a, b);
  }

  lemma WholeBytes(z: seq<bool>, s: seq<Byte>, rest: seq<bool>)
    requires |rest| % 8 == 0 && z == ByteBits(s) + rest
    ensures Aligned(z) == z
  {
    hide ByteBits;
    assert |z| % 8 == 0;
  }

  lemma CheckedWhole(t: seq<nat>, data: seq<Byte>, z: seq<bool>, a: seq<Byte>, b: seq<Byte>)
    requires Table(t) && |a| == |b| == 4 && |z| >= 64 && Aligned(z) == z && Bytes(z, 8) == a + b
    requires Little(a) == Finalise(SumLow(t, data)) && Little(b) == |data| % WORD
    ensures Checked(t, data, z) == Done(data, z[64..])
  {
    hide FromLow, Bytes, Little, SumLow, Finalise, Aligned;
    assert (a + b)[..4] == a && (a + b)[4..] == b;
  }

  /** A member written from any sequence of reads is read back as the data read, with its checksum and size accepted. */
  lemma MemberRead(t: seq<nat>, chunks: seq<seq<Byte>>, rest: seq<bool>, win: seq<Byte>)
    requires |win| == WINDOW && Table(t) && Reads(chunks) && |rest| % 8 == 0
    ensures var z := ByteBits(MemberBytes(t, chunks)) + rest;
            |z| >= 8 && FromLow(z[..8]) == 0x1f && MemberOf(t, z, win) == Done(Joined(chunks), rest)
  {
    hide LowBits, FromLow, ByteBits, BlocksBytes, SkipHeader, Blocks, Checked, LittleBytes, SumLow, Finalise;
    var data := Joined(chunks);
    var trailer := LittleBytes(Finalise(SumLow(t, data)), 4) + LittleBytes(|data| % WORD, 4);
    var tail := ByteBits(trailer) + rest;
    var body := ByteBits(BlocksBytes(chunks)) + tail;
    MemberSplit(t, chunks, trailer, rest);
    HeaderRead(body);
    assert |tail| % 8 == 0;
    BlocksRead(chunks, win, tail);
    assert (win + data)[WINDOW..] == data;
    CheckedRead(t, data, rest);
  }

  lemma MemberSplit(t: seq<nat>, chunks: seq<seq<Byte>>, trailer: seq<Byte>, rest: seq<bool>)
    requires Table(t) && Reads(chunks)
    requires trailer == LittleBytes(Finalise(SumLow(t, Joined(chunks))), 4) + LittleBytes(|Joined(chunks)| % WORD, 4)
    ensures ByteBits(MemberBytes(t, chunks)) + rest == ByteBits(GZIP_HEADER) + (ByteBits(BlocksBytes(chunks)) + (ByteBits(trailer) + rest))
  {
    hide LowBits, ByteBits, BlocksBytes, LittleBytes, SumLow, Finalise;
    var blocks := BlocksBytes(chunks);
    Regroup(GZIP_HEADER + blocks, LittleBytes(Finalise(SumLow(t, Joined(chunks))), 4), LittleBytes(|Joined(chunks)| % WORD, 4));
    ByteBitsAppend(GZIP_HEADER + blocks, trailer);
    ByteBitsAppend(GZIP_HEADER, blocks);
    Four(ByteBits(GZIP_HEADER), ByteBits(blocks), ByteBits(trailer), rest);
  }

  lemma Four(a: seq<bool>, b: seq<bool>, c: seq<bool>, d: seq<bool>)
    ensures a + b + c + d == a + (b + (c + d))
  {
  }

  /** Files: zero bytes before each member, and at the end. */
  datatype Item = Item(zeros: nat, chunks: seq<seq<Byte>>)

  ghost function FileBytes(t: seq<nat>, items: seq<Item>, last: nat): seq<Byte>
    requires Table(t) && forall i :: 0 <= i < |items| ==> Reads(items[i].chunks)
  {
    if items == [] then Copies(0, last)
    else Copies(0, items[0].zeros) + MemberBytes(t, items[0].chunks) + FileBytes(t, items[1..], last)
  }

  ghost function FileData(items: seq<Item>): seq<Byte> {
    if items == [] then [] else Joined(items[0].chunks) + FileData(items[1..])
  }

  lemma {:induction false} ZerosSkipped(n: nat, z: seq<bool>)
    requires |z| < 8 || FromLow(z[..8]) != 0
    ensures SkipZeros(ByteBits(Copies(0, n)) + z) == z
    decreases n
  {
    hide LowBits, FromLow;
    if n == 0 {
      assert ByteBits(Copies(0, 0)) + z == z;
    } else {
      var w := ByteBits(Copies(0, n)) + z;
      FirstOf(Copies(0, n), z);
      assert Copies(0, n)[1..] == Copies(0, n - 1);
      assert w[8..] == ByteBits(Copies(0, n - 1)) + z;
      ZerosSkipped(n - 1, z);
    }
  }

  /** Any concatenation of written members, zero bytes between them, inflates to the concatenated inputs. */
  lemma {:induction false} FileRead(t: seq<nat>, items: seq<Item>, last: nat, first: bool, all: seq<Byte>, win: seq<Byte>)
    requires |win| == WINDOW && Table(t) && (forall i :: 0 <= i < |items| ==> Reads(items[i].chunks)) && (items == [] ==> !first)
    ensures Gunzip(t, ByteBits(FileBytes(t, items, last)), first, all, win) == Done(all + FileData(items), [])
    decreases |items|
  {
    hide LowBits, FromLow, ByteBits, MemberBytes, MemberOf, Joined, Copies, Turned;
    if items == [] {
      ZerosSkipped(last, []);
      assert ByteBits(Copies(0, last)) + [] == ByteBits(Copies(0, last)) && all + [] == all;
    } else {
      var zeros, member, later := Copies(0, items[0].zeros), MemberBytes(t, items[0].chunks), FileBytes(t, items[1..], last);
      var rest := ByteBits(later);
      ByteBitsAppend(zeros + member, later);
      ByteBitsAppend(zeros, member);
      Regroup(ByteBits(zeros), ByteBits(member), rest);
      assert |rest| % 8 == 0;
      MemberRead(t, items[0].chunks, rest, win);
      ZerosSkipped(items[0].zeros, ByteBits(member) + rest);
      FileRead(t, items[1..], last, false, all + Joined(items[0].chunks), Turned(win + Joined(items[0].chunks)));
      Regroup(all, Joined(items[0].chunks), FileData(items[1..]));
    }
  }
}
