/** The whole stream: header, blocks, trailer (libc/compress.c:597-662, libc/decompress.c:200-264, 583-612, libc/bzlib.c:808-855). */
module Stream {
  import opened Words
  import opened Counting
  import opened Rotations
  import opened BitStream
  import opened CanonicalCode
  import opened MtfEncoder
  import opened BlockFormat
  import opened BlockData
  import opened InverseBwt
  import opened RunLength
  import opened Crc
  import opened BlockOutput
  import opened Randomise
  import TableChoice

  const BLOCK_MAGIC: seq<Byte> := [0x31, 0x41, 0x59, 0x26, 0x53, 0x59]
  const END_MAGIC: seq<Byte> := [0x17, 0x72, 0x45, 0x38, 0x50, 0x90]
  const HEADER: seq<Byte> := [0x42, 0x5a, 0x68]

  /** Bytes read as pairs of decimal digits. */
  ghost function Decimal(s: seq<Byte>): nat {
    if s == [] then 0 else 100 * Decimal(s[..|s| - 1]) + 10 * (s[|s| - 1] / 16) + s[|s| - 1] % 16
  }

  /** The stream begins with BZh, blocks with the digits of pi, and the end with those of its square root. */
  lemma Magics()
    ensures HEADER == ['B' as int, 'Z' as int, 'h' as int]
    ensures Decimal(BLOCK_MAGIC) == 314159265359 && Decimal(END_MAGIC) == Root(314159265359 * 100_000_000_000)
  {
    hide Decimal, Root;
    SixPairs(0x31, 0x41, 0x59, 0x26, 0x53, 0x59);
    SixPairs(0x17, 0x72, 0x45, 0x38, 0x50, 0x90);
    RootIs(314159265359 * 100_000_000_000, 177245385090);
  }

  /** The whole part of the square root. */
  ghost function Root(x: nat): (r: nat)
    ensures r * r <= x < (r + 1) * (r + 1)
  {
    if x == 0 then 0
    else
      var r := Root(x - 1);
      if (r + 1) * (r + 1) <= x then r + 1 else r
  }

  lemma RootIs(x: nat, r: nat)
    requires r * r <= x < (r + 1) * (r + 1)
    ensures Root(x) == r
  {
    hide Root;
    var q := Root(x);
    if q < r { Scale(q + 1, r, q + 1); Scale(q + 1, r, r); } else if r < q { Scale(r + 1, q, r + 1); Scale(r + 1, q, q); }
  }

  lemma TwoDigits(s: seq<Byte>, b: Byte)
    ensures Decimal(s + [b]) == 100 * Decimal(s) + 10 * (b / 16) + b % 16
  {
    assert (s + [b])[..|s|] == s;
  }

  lemma NoDigits()
    ensures Decimal([]) == 0
  {
  }

  lemma SixPairs(a: Byte, b: Byte, c: Byte, d: Byte, e: Byte, f: Byte)
    ensures var n := (x: int) => 10 * (x / 16) + x % 16;
            Decimal([a, b, c, d, e, f]) == 100 * (100 * (100 * (100 * (100 * n(a) + n(b)) + n(c)) + n(d)) + n(e)) + n(f)
  {
    hide Decimal;
    NoDigits();
    TwoDigits([], a);
    TwoDigits([a], b);
    TwoDigits([a, b], c);
    TwoDigits([a, b, c], d);
    TwoDigits([a, b, c, d], e);
    TwoDigits([a, b, c, d, e], f);
    assert [] + [a] == [a] && [a] + [b] == [a, b] && [a, b] + [c] == [a, b, c] && [a, b, c] + [d] == [a, b, c, d];
    assert [a, b, c, d] + [e] == [a, b, c, d, e] && [a, b, c, d, e] + [f] == [a, b, c, d, e, f];
  }

  // ---- the block behind a column ----

  lemma SlotTaken(l: seq<Byte>, k: nat)
    requires k < |l|
    ensures exists i :: 0 <= i < |l| && Slot(l, i) == k
  {
    StartTotal(l);
    var d := BucketOf(l, k, 256);
    var i := Nth(l, d, k - Start(l, d));
    assert Slot(l, i) == k;
  }

  /** The vector T^(-1) of a column. */
  ghost function Inverse(l: seq<Byte>): (p: seq<int>)
    ensures InvertsSlots(l, p)
  {
    seq(|l|, k requires 0 <= k < |l| => SlotTaken(l, k); var i :| 0 <= i < |l| && Slot(l, i) == k; i)
  }

  lemma InverseUnique(l: seq<Byte>, p: seq<int>)
    requires InvertsSlots(l, p)
    ensures p == Inverse(l)
  {
    var q := Inverse(l);
    forall k | 0 <= k < |l|
      ensures p[k] == q[k]
    {
      InverseAt(l, p, q[k]);
    }
  }

  /** The block that a column and an origin pointer stand for. */
  ghost function Restored(l: seq<Byte>, orig: nat): seq<Byte>
    requires orig < |l|
  {
    Text(l, Inverse(l), orig)
  }

  lemma RestoresSorted(b: seq<Byte>, ptr: seq<int>, orig: nat)
    requires SortsRotations(b, ptr) && orig < |b| && ptr[orig] == 0
    ensures Restored(LastColumn(b, ptr), orig) == b
  {
    var l := LastColumn(b, ptr);
    var p := Inverse(l);
    forall m | 0 <= m < |b|
      ensures Text(l, p, orig)[m] == b[m]
    {
      InverseTransform(b, ptr, p, orig, m);
    }
  }

  // ---- reading a stream ----

  /** A sequence of expected bytes. */
  ghost function ParseBytes(z: seq<bool>, expected: seq<Byte>): (r: Read<()>)
    ensures r.Got? ==> |r.rest| == |z| - 8 * |expected|
    decreases |expected|
  {
    if expected == [] then Got((), z)
    else if |z| < 8 then Short
    else if FromBits(z[..8]) != expected[0] then Bad
    else ParseBytes(z[8..], expected[1..])
  }

  lemma {:induction false} BytesRoundTrip(expected: seq<Byte>, z: seq<bool>)
    ensures ParseBytes(BytesToBits(expected) + z, expected) == Got((), z)
    decreases |expected|
  {
    hide ToBits, FromBits;
    if expected == [] {
      assert BytesToBits(expected) + z == z;
    } else {
      var w := BytesToBits(expected) + z;
      assert w[..8] == ToBits(expected[0], 8) && w[8..] == BytesToBits(expected[1..]) + z;
      Pow2Values();
      FromToBits(expected[0], 8);
      BytesRoundTrip(expected[1..], z);
    }
  }

  /** The bytes of a decoded block, without the mask. */
  ghost function Unmasked(nums: Numbers, block: Block): seq<Byte>
    requires block.origPtr < |block.column|
  {
    var b := Restored(block.column, block.origPtr);
    if block.randomised then Masked(nums, b) else b
  }

  /** What a decoded block writes, if its checksum is right. */
  ghost function Contents(nums: Numbers, t: seq<nat>, block: Block): (d: Read<seq<Byte>>)
    requires Table(t) && block.origPtr < |block.column|
    ensures !d.Short?
  {
    var b := Unmasked(nums, block);
    if !Whole(b) || Checksum(t, Expand(b)) != block.crc then Bad else Got(Expand(b), [])
  }

  /** Blocks up to the end of the stream; `combined` is the checksum so far. */
  ghost function ParseBlocks(nums: Numbers, t: seq<nat>, level: nat, z: seq<bool>, combined: nat): Read<seq<Byte>>
    requires Table(t) && combined < WORD
    decreases |z|
  {
    if |z| < 8 then Short
    else if FromBits(z[..8]) == END_MAGIC[0] then
      match ParseBytes(z, END_MAGIC)
      case Short => Short
      case Bad => Bad
      case Got(_, rest) =>
        if |rest| < 32 then Short
        else if FromBits(rest[..32]) != combined then Bad
        else Got([], rest[32..])
    else
      match ParseBytes(z, BLOCK_MAGIC)
      case Short => Short
      case Bad => Bad
      case Got(_, body) =>
        match ParseBody(level, body)
        case Short => Short
        case Bad => Bad
        case Got(block, rest) =>
          match Contents(nums, t, block)
          case Short => Short
          case Bad => Bad
          case Got(data, _) =>
            Pow2Values();
            Prepend(data, ParseBlocks(nums, t, level, rest, Combine(combined, block.crc)))
  }

  /** A whole stream. */
  ghost function ParseStream(nums: Numbers, t: seq<nat>, z: seq<bool>): Read<seq<Byte>>
    requires Table(t)
  {
    match ParseBytes(z, HEADER)
    case Short => Short
    case Bad => Bad
    case Got(_, rest) =>
      if |rest| < 8 then Short
      else
        var level := FromBits(rest[..8]) - 0x30;
        if level < 1 || level > 9 then Bad else ParseBlocks(nums, t, level, rest[8..], 0)
  }

  // ---- writing a stream ----

  /** How a block came to be coded: the sorting, the bytes in use, and the coding tables that were picked. */
  datatype Plan = Plan(ptr: seq<int>, orig: nat, used: seq<bool>, col: seq<int>, tables: seq<seq<Byte>>, sel: seq<int>)

  ghost predicate Planned(e: Plan, b: seq<Byte>, level: nat) {
    && 1 <= level <= 9 && |b| <= 100000 * level && Whole(b)
    && SortsRotations(b, e.ptr) && e.orig < |b| && e.ptr[e.orig] == 0
    && Ranks(e.used, LastColumn(b, e.ptr), e.col)
    && Sendable(e.tables, e.sel, |Used(e.used, 256)|, ColumnSymbols(e.col, |Used(e.used, 256)|))
    && TableChoice.Fitted(e.tables, e.sel, ColumnSymbols(e.col, |Used(e.used, 256)|), |Used(e.used, 256)| + 2)
  }

  ghost function BlockBits(t: seq<nat>, e: Plan, b: seq<Byte>, level: nat): seq<bool>
    requires Table(t) && Planned(e, b, level)
  {
    BytesToBits(BLOCK_MAGIC)
    + BodyBits(Checksum(t, Expand(b)), e.orig, e.used, e.tables, e.sel, ColumnSymbols(e.col, |Used(e.used, 256)|))
  }

  ghost predicate AllPlanned(plans: seq<Plan>, blocks: seq<seq<Byte>>, level: nat) {
    |plans| == |blocks| && forall i :: 0 <= i < |blocks| ==> Planned(plans[i], blocks[i], level)
  }

  ghost function BlocksBits(t: seq<nat>, plans: seq<Plan>, blocks: seq<seq<Byte>>, level: nat): seq<bool>
    requires Table(t) && AllPlanned(plans, blocks, level)
    decreases |blocks|
  {
    if blocks == [] then [] else BlockBits(t, plans[0], blocks[0], level) + BlocksBits(t, plans[1..], blocks[1..], level)
  }

  /** The combined checksum after some more blocks. */
  ghost function Combined(t: seq<nat>, combined: nat, blocks: seq<seq<Byte>>): (r: nat)
    requires Table(t) && combined < WORD
    ensures r < WORD
    decreases |blocks|
  {
    if blocks == [] then combined else Combined(t, Combine(combined, Checksum(t, Expand(blocks[0]))), blocks[1..])
  }

  /** The bytes that a sequence of blocks stands for. */
  ghost function Data(blocks: seq<seq<Byte>>): seq<Byte> {
    if blocks == [] then [] else Expand(blocks[0]) + Data(blocks[1..])
  }

  ghost function EndBits(combined: nat): seq<bool> {
    BytesToBits(END_MAGIC) + ToBits(combined, 32)
  }

  ghost function HeaderBits(level: nat): seq<bool>
    requires 1 <= level <= 9
  {
    BytesToBits(HEADER) + ToBits(0x30 + level, 8)
  }

  lemma EndRoundTrip(nums: Numbers, t: seq<nat>, level: nat, combined: nat, z: seq<bool>)
    requires Table(t) && combined < WORD
    ensures ParseBlocks(nums, t, level, EndBits(combined) + z, combined) == Got([], z)
  {
    hide BytesToBits, ToBits, FromBits;
    var w := EndBits(combined) + z;
    var rest := ToBits(combined, 32) + z;
    assert w == BytesToBits(END_MAGIC) + rest;
    FirstByte(END_MAGIC, rest);
    BytesRoundTrip(END_MAGIC, rest);
    Pow2Values();
    FromToBits(combined, 32);
    assert rest[..32] == ToBits(combined, 32) && rest[32..] == z;
  }

  lemma FirstByte(bytes: seq<Byte>, z: seq<bool>)
    requires bytes != []
    ensures |BytesToBits(bytes) + z| >= 8 && FromBits((BytesToBits(bytes) + z)[..8]) == bytes[0]
  {
    hide ToBits, FromBits;
    var w := BytesToBits(bytes) + z;
    assert w[..8] == ToBits(bytes[0], 8);
    Pow2Values();
    FromToBits(bytes[0], 8);
  }

  lemma BlockRoundTrip(nums: Numbers, t: seq<nat>, e: Plan, b: seq<Byte>, level: nat, z: seq<bool>, combined: nat)
    requires Table(t) && Planned(e, b, level) && combined < WORD
    ensures ParseBlocks(nums, t, level, BlockBits(t, e, b, level) + z, combined)
            == Prepend(Expand(b), ParseBlocks(nums, t, level, z, Combine(combined, Checksum(t, Expand(b)))))
  {
    hide BytesToBits, FromBits, ParseBody, BodyBits, Checksum, Expand, Whole, Combine, Sendable, Restored, Used, ColumnSymbols;
    var crc, l := Checksum(t, Expand(b)), LastColumn(b, e.ptr);
    var body := BodyBits(crc, e.orig, e.used, e.tables, e.sel, ColumnSymbols(e.col, |Used(e.used, 256)|)) + z;
    assert BlockBits(t, e, b, level) + z == BytesToBits(BLOCK_MAGIC) + body;
    FirstByte(BLOCK_MAGIC, body);
    BytesRoundTrip(BLOCK_MAGIC, body);
    BodyRoundTrip(e.used, l, e.col, e.tables, e.sel, level, crc, e.orig, z);
    RestoresSorted(b, e.ptr, e.orig);
  }

  lemma {:induction false} BlocksRoundTrip(nums: Numbers, t: seq<nat>, plans: seq<Plan>, blocks: seq<seq<Byte>>, level: nat, combined: nat, z: seq<bool>)
    requires Table(t) && AllPlanned(plans, blocks, level) && combined < WORD
    ensures ParseBlocks(nums, t, level, BlocksBits(t, plans, blocks, level) + EndBits(Combined(t, combined, blocks)) + z, combined)
            == Got(Data(blocks), z)
    decreases |blocks|
  {
    hide Planned, BlockBits, EndBits, ParseBlocks, Expand, Checksum, Combine;
    var end := EndBits(Combined(t, combined, blocks));
    if blocks == [] {
      assert BlocksBits(t, plans, blocks, level) + end + z == end + z;
      EndRoundTrip(nums, t, level, combined, z);
    } else {
      var later := BlocksBits(t, plans[1..], blocks[1..], level);
      var first := BlockBits(t, plans[0], blocks[0], level);
      assert first + later + end + z == first + (later + end + z);
      BlockRoundTrip(nums, t, plans[0], blocks[0], level, later + end + z, combined);
      BlocksRoundTrip(nums, t, plans[1..], blocks[1..], level, Combine(combined, Checksum(t, Expand(blocks[0]))), z);
    }
  }

  /** The complete stream of a sequence of blocks. */
  ghost function StreamBits(t: seq<nat>, plans: seq<Plan>, blocks: seq<seq<Byte>>, level: nat): seq<bool>
    requires Table(t) && 1 <= level <= 9 && AllPlanned(plans, blocks, level)
  {
    HeaderBits(level) + BlocksBits(t, plans, blocks, level) + EndBits(Combined(t, 0, blocks))
  }

  /** Every stream the compressor can write decodes to the data of its blocks, and ends where it should. */
  lemma StreamRoundTrip(nums: Numbers, t: seq<nat>, plans: seq<Plan>, blocks: seq<seq<Byte>>, level: nat, z: seq<bool>)
    requires Table(t) && 1 <= level <= 9 && AllPlanned(plans, blocks, level)
    ensures ParseStream(nums, t, StreamBits(t, plans, blocks, level) + z) == Got(Data(blocks), z)
  {
    hide BytesToBits, ToBits, FromBits, BlocksBits, EndBits, ParseBlocks, Combined, AllPlanned, Data;
    var blocksBits, end := BlocksBits(t, plans, blocks, level), EndBits(Combined(t, 0, blocks));
    var digit := ToBits(0x30 + level, 8);
    var rest := digit + (blocksBits + end + z);
    assert StreamBits(t, plans, blocks, level) + z == BytesToBits(HEADER) + rest;
    BytesRoundTrip(HEADER, rest);
    Pow2Values();
    FromToBits(0x30 + level, 8);
    assert rest[..8] == digit && rest[8..] == blocksBits + end + z;
    BlocksRoundTrip(nums, t, plans, blocks, level, 0, z);
  }
}
