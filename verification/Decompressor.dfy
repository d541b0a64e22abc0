/** Decompressing a stream (libc/bzlib.c:806-866, libc/decompress.c:200-264, 583-612). */
module Decompressor {
  import opened Words
  import opened BitStream
  import opened CanonicalCode
  import opened BlockFormat
  import opened BlockData
  import opened Counting
  import opened InverseBwt
  import SmallVector
  import opened RunLength
  import opened Crc
  import opened BlockOutput
  import opened Stream
  import opened Randomise
  import opened ReceiveHeader
  import opened ReceiveBlock

  /** A sequence of bytes that must match. */
  method Match(r: BitReader, expected: seq<Byte>) returns (st: Status)
    requires r.Valid()
    modifies r
    ensures r.Valid() && ParseBytes(old(r.Rest()), expected) == Outcome(st, (), r.Rest())
  {
    hide BitReader.Valid, BitReader.Rest, FromBits;
    ghost var all := ParseBytes(r.Rest(), expected);
    assert expected[0..] == expected;
    for i := 0 to |expected|
      invariant r.Valid() && all == ParseBytes(r.Rest(), expected[i..])
    {
      assert expected[i..][1..] == expected[i + 1..];
      var ok, uc := r.Get(8);
      if !ok { return Starved; }
      if uc != expected[i] { return DataError; }
    }
    st := Done;
  }

  // ---- one block ----

  /** Write a received block out, calling as often as it takes; `rooms` is the room of each call, and `calls` counts them. */
  method WriteOut(o: Output, rooms: nat -> nat, calls: nat) returns (corrupt: bool, n: nat)
    requires o.Valid() && (forall i :: rooms(i) > 0) && o.out == []
    modifies o, o.src
    ensures o.Valid() && corrupt == !Whole(o.Block())
    ensures !corrupt ==> o.out == Expand(o.Block()) && o.crc == Sum(o.table, INITIAL, o.out)
  {
    hide Output.Remaining, Output.Block, Written, Whole, Expand, Source.Valid, Sum, Output.Extra;
    n := calls;
    while true
      invariant o.Valid()
      decreases |Written(o.Block(), o.Extra())| - |o.out|
    {
      corrupt := o.Call(rooms(n));
      n := n + 1;
      if corrupt { return; }
      if o.nblockUsed == o.nblock + 1 && o.stateOutLen == 0 { break; }
    }
  }

  /** The outcome of decoding a block, given what its bits stand for. */
  ghost predicate Delivered(nums: Numbers, t: seq<nat>, parsed: Read<Block>, st: Status, out: seq<Byte>, crc: nat, rest: seq<bool>)
    requires Table(t) && (parsed.Got? ==> parsed.value.origPtr < |parsed.value.column|)
  {
    match parsed
    case Short => st.Starved?
    case Bad => st.DataError?
    case Got(block, z) => if Contents(nums, t, block).Got? then st.Done? && out == Contents(nums, t, block).value && crc == block.crc && rest == z else st.DataError?
  }

  /** What the SMALL decoder walks: T^(-1) along the cycle of origPtr, and the start of each byte's bucket. */
  ghost predicate SmallReady(ll: SmallVector.LL, cftab: array<int>, l: seq<Byte>, origPtr: nat)
    reads ll, ll.ll16, ll.ll4, cftab
  {
    && origPtr < |l| && ll.Valid() && |l| <= ll.used && cftab.Length == 257
    && (forall k: nat :: ll.Cells()[Walk(Inverse(l), origPtr, k)] == Inverse(l)[Walk(Inverse(l), origPtr, k)])
    && (forall c :: 0 <= c <= 256 ==> cftab[c] == Start(l, c))
  }

  /** Read a block into ll16, turn it into T, and reverse the cycle of origPtr. */
  method ReceiveSmall(r: BitReader, level: nat, ll: SmallVector.LL)
    returns (st: Status, crc: nat, randomised: bool, origPtr: nat, nblock: nat, cftab: array<int>, ghost l: seq<Byte>)
    requires r.Valid() && level <= 9 && ll.Shape() && 100000 * level <= ll.ll16.Length
    modifies r, ll, ll.ll16, ll.ll4
    ensures r.Valid() && ll.Shape() && fresh(cftab)
    ensures ParseBody(level, old(r.Rest())) == Outcome(st, Block(crc, randomised, origPtr, l), r.Rest())
    ensures st.Done? ==> nblock == |l| && SmallReady(ll, cftab, l, origPtr)
  {
    hide BitReader.Valid, BitReader.Rest, ParseBody, Count, Start, InvertsSlots, Walk, Inverse;
    var unzftab := new int[256];
    cftab := new int[257];
    st, crc, randomised, origPtr, nblock, l := ReceiveBody(r, level, ll.ll16, unzftab);
    if !st.Done? { return; }
    var ok := MakeCftab(unzftab, cftab, nblock, l);
    assert forall k :: 0 <= k < nblock ==> ll.ll16[..nblock][k] == l[k];
    SmallVector.BuildSmall(ll, cftab, nblock, l);
    CellsInvert(ll.Cells()[..nblock], l);
    SmallVector.ReverseCycle(ll, origPtr, nblock, Inverse(l));
  }

  lemma CellsInvert(t: seq<int>, l: seq<Byte>)
    requires |t| == |l| && forall i :: 0 <= i < |l| ==> t[i] == Slot(l, i)
    ensures SmallVector.Inverse(t, Inverse(l))
  {
    hide Slot, Inverse;
    forall i | 0 <= i < |l| ensures 0 <= t[i] < |t| && Inverse(l)[t[i]] == i { InverseAt(l, Inverse(l), i); SlotAt(l, i); }
  }

  lemma SlotAt(l: seq<Byte>, i: nat)
    requires i < |l|
    ensures 0 <= Slot(l, i)
  {
  }

  lemma GoodSource(src: Source)
    requires src.Valid()
    ensures src.Good()
  {
  }

  lemma SourceBlock(src: Source, crc: nat)
    requires src.Good() && src.p == Inverse(src.l)
    ensures src.Block() == Unmasked(src.nums, Block(crc, src.randomised, src.orig, src.l))
  {
  }

  /** A block ready to be walked is written out. */
  method Drain(src: Source, nblock: nat, table: seq<nat>, rooms: nat -> nat, calls: nat) returns (corrupt: bool, data: seq<Byte>, sum: nat, n: nat)
    requires src.Valid() && src.fetched == 0 && nblock == |src.l| && Table(table) && (forall i :: rooms(i) > 0)
    modifies src
    ensures src.Good() && corrupt == !Whole(src.Block())
    ensures !corrupt ==> data == Expand(src.Block()) && sum == Checksum(table, data)
  {
    hide Output.Valid, Source.Valid, InvertsSlots, Packed, Whole, Expand, Sum, Walk;
    GoodSource(src);
    var k0 := src.Fetch();
    var o := new Output(src, nblock, k0, table);
    corrupt, n := WriteOut(o, rooms, calls);
    data, sum := [], 0;
    if corrupt { return; }
    data, sum := o.out, Finalise(o.crc);
  }

  /** Receive a block and write it out, checking its checksum. */
  method DecodeBlock(r: BitReader, level: nat, small: bool, tt: array<int>, ll: SmallVector.LL, nums: Numbers, table: seq<nat>, rooms: nat -> nat,
                     calls: nat)
    returns (st: Status, out: seq<Byte>, crc: nat, n: nat)
    requires r.Valid() && 1 <= level <= 9 && Fits(level, small, tt, ll) && Table(table) && (forall i :: rooms(i) > 0)
    modifies r, tt, ll, ll.ll16, ll.ll4
    ensures r.Valid() && Fits(level, small, tt, ll)
    ensures Delivered(nums, table, ParseBody(level, old(r.Rest())), st, out, crc, r.Rest())
  {
    hide BitReader.Valid, BitReader.Rest, ParseBody, Source.Valid, InvertsSlots, Packed, Whole, Expand, Sum, Walk, Restored, Checksum;
    out, n := [], calls;
    var randomised, origPtr, nblock;
    ghost var l;
    var src: Source;
    if small {
      var cftab;
      st, crc, randomised, origPtr, nblock, cftab, l := ReceiveSmall(r, level, ll);
      if !st.Done? { return; }
      src := new Source.Small(ll, cftab, origPtr, randomised, nums, l, Inverse(l));
    } else {
      ghost var p;
      st, crc, randomised, origPtr, nblock, l, p := Receive(r, level, tt);
      if !st.Done? { return; }
      InverseUnique(l, p);
      src := new Source.Fast(tt, origPtr, randomised, nums, l, p);
    }
    GoodSource(src);
    SourceBlock(src, crc);
    var corrupt, data, sum;
    corrupt, data, sum, n := Drain(src, nblock, table, rooms, calls);
    if corrupt { return DataError, out, crc, n; }
    if sum != crc { return DataError, out, crc, n; }
    out := data;
  }

  /** The memory of one of the two decoders. */
  ghost predicate Fits(level: nat, small: bool, tt: array<int>, ll: SmallVector.LL) {
    if small then ll.Shape() && 100000 * level <= ll.ll16.Length else 100000 * level <= tt.Length
  }

  // ---- the stream ----

  /** The trailer after its first byte. */
  ghost function Trailer(combined: nat, z: seq<bool>): Read<seq<Byte>> {
    match ParseBytes(z, END_MAGIC[1..])
    case Short => Short
    case Bad => Bad
    case Got(_, rest) =>
      if |rest| < 32 then Short else if FromBits(rest[..32]) != combined then Bad else Got([], rest[32..])
  }

  /** A block after the first byte of its magic, and everything behind it. */
  ghost function BlockThen(nums: Numbers, t: seq<nat>, level: nat, z: seq<bool>, combined: nat): Read<seq<Byte>>
    requires Table(t) && combined < WORD
  {
    match ParseBytes(z, BLOCK_MAGIC[1..])
    case Short => Short
    case Bad => Bad
    case Got(_, body) =>
      match ParseBody(level, body)
      case Short => Short
      case Bad => Bad
      case Got(block, rest) =>
        match Contents(nums, t, block)
        case Short => Short
        case Bad => Bad
        case Got(data, _) =>
          Pow2Values();
          Prepend(data, ParseBlocks(nums, t, level, rest, Combine(combined, block.crc)))
  }

  /** What the first byte decides. */
  lemma BlockCases(nums: Numbers, t: seq<nat>, level: nat, z: seq<bool>, combined: nat)
    requires Table(t) && combined < WORD
    ensures |z| < 8 ==> ParseBlocks(nums, t, level, z, combined) == Short
    ensures |z| >= 8 && FromBits(z[..8]) == 0x17 ==> ParseBlocks(nums, t, level, z, combined) == Trailer(combined, z[8..])
    ensures |z| >= 8 && FromBits(z[..8]) == 0x31 ==> ParseBlocks(nums, t, level, z, combined) == BlockThen(nums, t, level, z[8..], combined)
    ensures |z| >= 8 && FromBits(z[..8]) != 0x17 && FromBits(z[..8]) != 0x31 ==> ParseBlocks(nums, t, level, z, combined) == Bad
  {
    hide FromBits, ParseBody, Contents, Combine;
  }

  method ReadTrailer(r: BitReader, combined: nat) returns (st: Status)
    requires r.Valid()
    modifies r
    ensures r.Valid() && Trailer(combined, old(r.Rest())) == Outcome(st, [], r.Rest())
  {
    hide BitReader.Valid, BitReader.Rest, FromBits, ParseBytes;
    st := Match(r, END_MAGIC[1..]);
    if !st.Done? { return; }
    var ok, stored := GetBytes(r, 4);
    if !ok { return Starved; }
    if stored != combined { return DataError; }
  }

  method NextBlock(r: BitReader, level: nat, small: bool, tt: array<int>, ll: SmallVector.LL, nums: Numbers, table: seq<nat>, rooms: nat -> nat,
                   calls: nat, combined0: nat)
    returns (st: Status, data: seq<Byte>, combined: nat, n: nat)
    requires r.Valid() && 1 <= level <= 9 && Fits(level, small, tt, ll) && Table(table) && (forall i :: rooms(i) > 0) && combined0 < WORD
    modifies r, tt, ll, ll.ll16, ll.ll4
    ensures r.Valid() && combined < WORD && (st.Done? ==> |r.Rest()| <= |old(r.Rest())|)
    ensures st.Done? ==> BlockThen(nums, table, level, old(r.Rest()), combined0) == Prepend(data, ParseBlocks(nums, table, level, r.Rest(), combined))
    ensures !st.Done? ==> BlockThen(nums, table, level, old(r.Rest()), combined0) == Outcome(st, [], [])
  {
    hide BitReader.Valid, BitReader.Rest, ParseBytes, ParseBody, Contents, ParseBlocks, Combine;
    data, combined, n := [], combined0, calls;
    st := Match(r, BLOCK_MAGIC[1..]);
    if !st.Done? { return; }
    BodyFits(level, r.Rest());
    var crc;
    st, data, crc, n := DecodeBlock(r, level, small, tt, ll, nums, table, rooms, calls);
    if !st.Done? { return; }
    combined := Combine(combined0, crc);
  }

  lemma BodyFits(level: nat, body: seq<bool>)
    ensures ParseBody(level, body).Got? ==> |ParseBody(level, body).rest| <= |body| && ParseBody(level, body).value.crc < WORD
  {
    Pow2Values();
  }

  /** The stream does not begin like one: BZ_DATA_ERROR_MAGIC. */
  ghost predicate BadMagic(z: seq<bool>) {
    match ParseBytes(z, HEADER)
    case Short => false
    case Bad => true
    case Got(_, rest) => |rest| >= 8 && !(0x31 <= FromBits(rest[..8]) <= 0x39)
  }

  /** Decompress a stream, in either memory mode and whatever the output room of each call: exactly what the format says the stream stands for. */
  method Decompress(r: BitReader, nums: Numbers, table: seq<nat>, small: bool, rooms: nat -> nat)
    returns (st: Status, out: seq<Byte>, magic: bool)
    requires r.Valid() && Table(table) && (forall i :: rooms(i) > 0)
    modifies r
    ensures r.Valid() && ParseStream(nums, table, old(r.Rest())) == Outcome(st, out, r.Rest())
    ensures magic <==> BadMagic(old(r.Rest()))
  {
    hide BitReader.Valid, BitReader.Rest, ParseBytes, ParseBlocks, BlockThen, Trailer, FromBits, Combine;
    out := [];
    st := Match(r, HEADER);
    magic := st.DataError?;
    if !st.Done? { return; }
    var ok, digit := r.Get(8);
    if !ok { return Starved, out, false; }
    if digit < 0x31 || digit > 0x39 { return DataError, out, true; }
    var level: nat, combined: nat, n: nat := digit - 0x30, 0, 0;
    var tt := new int[if small then 0 else 100000 * level];
    var ll := new SmallVector.LL(if small then 100000 * level else 0);
    ghost var all := ParseBlocks(nums, table, level, r.Rest(), 0);
    PrependEnds(out, all);
    while true
      invariant r.Valid() && combined < WORD && all == Prepend(out, ParseBlocks(nums, table, level, r.Rest(), combined))
      decreases |r.Rest()|
    {
      BlockCases(nums, table, level, r.Rest(), combined);
      var uc;
      ok, uc := r.Get(8);
      if !ok { return Starved, out, false; }
      if uc == 0x17 {
        st := ReadTrailer(r, combined);
        if st.Done? { PrependEnds(out, Got([], r.Rest())); }
        return;
      }
      if uc != 0x31 { return DataError, out, false; }
      var data;
      st, data, combined, n := NextBlock(r, level, small, tt, ll, nums, table, rooms, n, combined);
      if !st.Done? { return; }
      PrependTwice(out, data, ParseBlocks(nums, table, level, r.Rest(), combined));
      out := out + data;
    }
  }
}
