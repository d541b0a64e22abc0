/**
 * What RFC 1951 and RFC 1952 make of a file, and the rules among theirs that the code does not check
 * (libc/gzip.c:238-309, 340-396, 437-512, 546-797).
 */
module GzipStandard {
  import opened Words
  import opened CanonicalCode
  import opened Crc
  import opened Endian
  import opened GzipBits
  import opened GzipTree
  import opened GzipInflate
  import opened GzipHistory
  import opened GzipTables
  import opened GzipMembers

  // ---- codes ----

  /**
   * Section 3.2.1 of RFC 1951: no code word is the beginning of another. Whether every leaf of the tree must stand for a
   * symbol is a matter of reading that section; `full` says that it must.
   */
  ghost predicate Sound(lens: seq<Byte>, full: bool) {
    PrefixCode(lens, MAX_BITS) && (full ==> Kraft(lens, MAX_BITS) == Pow2(MAX_BITS))
  }

  /** Section 3.2.7 of RFC 1951: no distance code at all, or a single one of one bit. */
  ghost predicate Lone(lens: seq<Byte>) {
    (forall i :: 0 <= i < |lens| ==> lens[i] <= 1) && forall i, j :: 0 <= i < j < |lens| ==> lens[i] == 0 || lens[j] == 0
  }

  ghost predicate SoundDistances(lens: seq<Byte>, full: bool) {
    Sound(lens, full) || (Sound(lens, false) && Lone(lens))
  }

  /** Section 3.2.7 of RFC 1951: the code lengths are one sequence of `total` values, so no repetition passes its end. */
  ghost function StdLengths(cl: seq<Byte>, z: seq<bool>, total: nat, acc: seq<Byte>): (r: Parsed<seq<Byte>>)
    requires |cl| == 19 && |acc| <= total
    ensures r.Ok? ==> |r.value| == total && |r.rest| <= |z|
    decreases |z|
  {
    if |acc| == total then Ok(acc, z)
    else
      match Lookup(cl, z, 0)
      case Failed => Failed
      case Ok(sym, z1) =>
        if sym <= 15 then StdLengths(cl, z1, total, acc + [sym])
        else if sym == 16 && acc == [] then Failed
        else
          match Extra(RepeatBase(sym), RepeatBits(sym), z1)
          case Failed => Failed
          case Ok(rep, z2) =>
            if |acc| + rep > total then Failed
            else StdLengths(cl, z2, total, acc + Copies(if sym == 16 then acc[|acc| - 1] else 0, rep))
  }

  /** Behind n code lengths, no repetition passes the end of the sequence. */
  ghost predicate Uncut(cl: seq<Byte>, z: seq<bool>, total: nat, n: nat)
    requires |cl| == 19 && n <= total
    decreases |z|
  {
    if n == total then true
    else
      match Lookup(cl, z, 0)
      case Failed => true
      case Ok(sym, z1) =>
        if sym <= 15 then Uncut(cl, z1, total, n + 1)
        else if sym == 16 && n == 0 then true
        else
          match Extra(RepeatBase(sym), RepeatBits(sym), z1)
          case Failed => true
          case Ok(rep, z2) => n + rep <= total && Uncut(cl, z2, total, n + rep)
  }

  lemma {:induction false} StdLengthsIs(cl: seq<Byte>, z: seq<bool>, total: nat, acc: seq<Byte>)
    requires |cl| == 19 && |acc| <= total
    ensures StdLengths(cl, z, total, acc) == if Uncut(cl, z, total, |acc|) then CodeLengths(cl, z, total, acc) else Failed
    decreases |z|
  {
    hide Lookup, Extra, RepeatBase, RepeatBits;
    if |acc| < total && Lookup(cl, z, 0).Ok? {
      var sym, z1 := Lookup(cl, z, 0).value, Lookup(cl, z, 0).rest;
      if sym <= 15 {
        StdLengthsIs(cl, z1, total, acc + [sym]);
      } else if !(sym == 16 && acc == []) {
        var r := Extra(RepeatBase(sym), RepeatBits(sym), z1);
        if r.Ok? && |acc| + r.value <= total {
          StdLengthsIs(cl, r.rest, total, acc + Copies(if sym == 16 then acc[|acc| - 1] else 0, r.value));
        }
      }
    }
  }

  ghost function StdTablesOf(z: seq<bool>, hlit: nat, hdist: nat, hclen: nat, full: bool): (r: Parsed<Codes>)
    requires hclen <= 19
    ensures r.Ok? ==> |r.rest| <= |z|
  {
    if hlit > 286 || hdist > 32 then Failed
    else
      match CodeLengthLens(z, 0, hclen, Copies(0, 19))
      case Failed => Failed
      case Ok(cl, z1) =>
        if !Sound(cl, full) then Failed
        else
          match StdLengths(cl, z1, hlit + hdist, [])
          case Failed => Failed
          case Ok(lens, z2) =>
            if Sound(lens[..hlit], full) && SoundDistances(lens[hlit..], full) then Ok(Codes(lens[..hlit], lens[hlit..]), z2) else Failed
  }

  /** The three codes of a dynamic block are sound, and no repetition is cut. */
  ghost predicate LawfulTablesOf(z: seq<bool>, hlit: nat, hdist: nat, hclen: nat, full: bool)
    requires hclen <= 19
  {
    match CodeLengthLens(z, 0, hclen, Copies(0, 19))
    case Failed => true
    case Ok(cl, z1) =>
      && Sound(cl, full) && Uncut(cl, z1, hlit + hdist, 0)
      && match CodeLengths(cl, z1, hlit + hdist, [])
         case Failed => true
         case Ok(lens, _) => Sound(lens[..hlit], full) && SoundDistances(lens[hlit..], full)
  }

  lemma SoundUsable(lens: seq<Byte>, full: bool)
    ensures Sound(lens, full) || SoundDistances(lens, full) ==> Usable(lens)
  {
    hide Kraft, DistinctCodes, CodeBits;
    if PrefixCode(lens, MAX_BITS) { KraftDistinct(lens); }
  }

  lemma StdTablesOfIs(z: seq<bool>, hlit: nat, hdist: nat, hclen: nat, full: bool)
    requires hclen <= 19
    ensures StdTablesOf(z, hlit, hdist, hclen, full) == if LawfulTablesOf(z, hlit, hdist, hclen, full) then TablesOf(z, hlit, hdist, hclen) else Failed
  {
    hide CodeLengthLens, CodeLengths, StdLengths, Uncut, Sound, SoundDistances, Usable, Copies;
    var r := CodeLengthLens(z, 0, hclen, Copies(0, 19));
    if r.Ok? {
      SoundUsable(r.value, full);
      StdLengthsIs(r.value, r.rest, hlit + hdist, []);
      var s := CodeLengths(r.value, r.rest, hlit + hdist, []);
      if s.Ok? {
        SoundUsable(s.value[..hlit], full);
        SoundUsable(s.value[hlit..], full);
      }
    }
  }

  ghost function StdTables(z: seq<bool>, full: bool): (r: Parsed<Codes>)
    ensures r.Ok? ==> |r.rest| <= |z|
  {
    if |z| < 14 then Failed
    else
      FourBits(z[10..14]);
      StdTablesOf(z[14..], FromLow(z[..5]) + 257, FromLow(z[5..10]) + 1, FromLow(z[10..14]) + 4, full)
  }

  ghost predicate LawfulTables(z: seq<bool>, full: bool) {
    if |z| < 14 then true
    else
      FourBits(z[10..14]);
      LawfulTablesOf(z[14..], FromLow(z[..5]) + 257, FromLow(z[5..10]) + 1, FromLow(z[10..14]) + 4, full)
  }

  lemma StdTablesIs(z: seq<bool>, full: bool)
    ensures StdTables(z, full) == if LawfulTables(z, full) then Tables(z) else Failed
  {
    hide StdTablesOf, LawfulTablesOf, TablesOf, FromLow;
    if |z| >= 14 {
      FourBits(z[10..14]);
      StdTablesOfIs(z[14..], FromLow(z[..5]) + 257, FromLow(z[5..10]) + 1, FromLow(z[10..14]) + 4, full);
    }
  }

  // ---- blocks ----

  ghost function StdBlock(btype: nat, z: seq<bool>, out: seq<Byte>, full: bool): (r: Inflated)
    ensures r.Done? ==> out <= r.out && |r.rest| <= |z|
  {
    if btype == 0 then Stored(z, out)
    else if btype == 1 then Plain(FIXED_LIT, FIXED_DIST, z, out)
    else if btype == 2 then
      match StdTables(z, full)
      case Failed => Error
      case Ok(codes, rest) => Plain(codes.lit, codes.dst, rest, out)
    else Error
  }

  /** A block behind n bytes of its member, with sound codes and no distance that is too far. */
  ghost predicate LawfulBlock(btype: nat, z: seq<bool>, n: nat, full: bool) {
    if btype == 1 then Near(FIXED_LIT, FIXED_DIST, z, n)
    else if btype == 2 then LawfulTables(z, full) && (Tables(z).Ok? ==> Near(Tables(z).value.lit, Tables(z).value.dst, Tables(z).rest, n))
    else true
  }

  /** Where a block ends, and how long the member is then. */
  ghost function BlockSize(btype: nat, z: seq<bool>, n: nat): (r: Parsed<nat>)
    ensures r.Ok? ==> |r.rest| <= |z|
  {
    if btype == 0 then
      match Stored(z, [])
      case Error => Failed
      case Done(data, rest) => Ok(n + |data|, rest)
    else if btype == 1 then Measure(FIXED_LIT, FIXED_DIST, z, n)
    else if btype == 2 && Tables(z).Ok? then Measure(Tables(z).value.lit, Tables(z).value.dst, Tables(z).rest, n)
    else Failed
  }

  /** Stored data joins whatever is there. */
  lemma StoredJoins(z: seq<bool>, b: seq<Byte>, out: seq<Byte>)
    ensures Stored(z, b + out) == match Stored(z, out) { case Error => Inflated.Error case Done(all, rest) => Inflated.Done(b + all, rest) }
  {
    hide Bytes, Little, Aligned;
    var r := Stored(z, out);
    if r.Done? {
      var more := r.out[|out|..];
      assert r.out == out + more;
      Regroup(b, out, more);
    }
  }

  lemma BlockMeasured(btype: nat, z: seq<bool>, hist: seq<Byte>)
    requires |hist| >= WINDOW
    ensures Measures(Block(btype, z, hist), BlockSize(btype, z, |hist| - WINDOW))
  {
    hide Expand, Measure, Tables, Stored;
    if btype == 0 {
      StoredJoins(z, hist, []);
      assert hist + [] == hist;
    } else if btype == 1 {
      MeasureIs(FIXED_LIT, FIXED_DIST, z, hist);
    } else if btype == 2 && Tables(z).Ok? {
      MeasureIs(Tables(z).value.lit, Tables(z).value.dst, Tables(z).rest, hist);
    }
  }

  lemma StdBlockIs(btype: nat, z: seq<bool>, b: seq<Byte>, out: seq<Byte>, full: bool)
    requires |b| == WINDOW
    ensures StdBlock(btype, z, out, full) == if LawfulBlock(btype, z, |out|, full) then Own(Block(btype, z, b + out)) else Error
  {
    hide Expand, Plain, Near, Tables, Stored, LawfulTables, StdTables;
    if btype == 0 {
      StoredJoins(z, b, out);
      var r := Stored(z, out);
      if r.Done? { assert (b + r.out)[WINDOW..] == r.out; }
    } else if btype == 1 {
      PlainIs(FIXED_LIT, FIXED_DIST, z, b, out);
    } else if btype == 2 {
      StdTablesIs(z, full);
      if Tables(z).Ok? { PlainIs(Tables(z).value.lit, Tables(z).value.dst, Tables(z).rest, b, out); }
    }
  }

  ghost function StdBlocks(z: seq<bool>, out: seq<Byte>, full: bool): (r: Inflated)
    ensures r.Done? ==> out <= r.out && |r.rest| < |z|
    decreases |z|
  {
    if |z| < 3 then Error
    else
      match StdBlock(FromLow(z[1..3]), z[3..], out, full)
      case Error => Error
      case Done(out', rest) => if z[0] then Inflated.Done(out', rest) else StdBlocks(rest, out', full)
  }

  ghost function BlocksSize(z: seq<bool>, n: nat): (r: Parsed<nat>)
    ensures r.Ok? ==> |r.rest| < |z|
    decreases |z|
  {
    if |z| < 3 then Failed
    else
      match BlockSize(FromLow(z[1..3]), z[3..], n)
      case Failed => Failed
      case Ok(n', rest) => if z[0] then Ok(n', rest) else BlocksSize(rest, n')
  }

  /** All blocks of a member, behind n bytes of it. */
  ghost predicate LawfulBlocks(z: seq<bool>, n: nat, full: bool)
    decreases |z|
  {
    |z| >= 3 ==>
      && LawfulBlock(FromLow(z[1..3]), z[3..], n, full)
      && var r := BlockSize(FromLow(z[1..3]), z[3..], n);
         r.Failed? || z[0] || LawfulBlocks(r.rest, r.value, full)
  }

  lemma {:induction false} BlocksMeasured(z: seq<bool>, hist: seq<Byte>)
    requires |hist| >= WINDOW
    ensures Measures(Blocks(z, hist), BlocksSize(z, |hist| - WINDOW))
    decreases |z|
  {
    hide Block, BlockSize, FromLow;
    if |z| >= 3 {
      BlockMeasured(FromLow(z[1..3]), z[3..], hist);
      var r := Block(FromLow(z[1..3]), z[3..], hist);
      if r.Done? && !z[0] { BlocksMeasured(r.rest, r.out); }
    }
  }

  lemma Rejoined(b: seq<Byte>, out: seq<Byte>, hist: seq<Byte>)
    requires |b| == WINDOW && b + out <= hist
    ensures b + hist[WINDOW..] == hist
  {
    assert hist[..WINDOW] == b by { assert (b + out)[..WINDOW] == b; }
  }

  lemma {:induction false} StdBlocksIs(z: seq<bool>, b: seq<Byte>, out: seq<Byte>, full: bool)
    requires |b| == WINDOW
    ensures StdBlocks(z, out, full) == if LawfulBlocks(z, |out|, full) then Own(Blocks(z, b + out)) else Error
    decreases |z|
  {
    hide Block, BlockSize, StdBlock, LawfulBlock, FromLow;
    if |z| >= 3 {
      StdBlockIs(FromLow(z[1..3]), z[3..], b, out, full);
      BlockMeasured(FromLow(z[1..3]), z[3..], b + out);
      var r := Block(FromLow(z[1..3]), z[3..], b + out);
      if r.Done? {
        Rejoined(b, out, r.out);
        if !z[0] { StdBlocksIs(r.rest, b, r.out[WINDOW..], full); }
      }
    }
  }

  // ---- members and files ----

  /** Section 2.3.1.2 of RFC 1952: the reserved flags, bits 5 to 7, must be refused. */
  ghost predicate NoReserved(z: seq<bool>) {
    |z| >= 80 ==> Bytes(z, 10)[3] < 32
  }

  ghost function StdMember(t: seq<nat>, z: seq<bool>, full: bool): (r: Inflated)
    requires Table(t)
    ensures r.Done? ==> |r.rest| < |z|
  {
    if !NoReserved(z) then Error
    else
      match SkipHeader(z)
      case Failed => Error
      case Ok(_, body) =>
        match StdBlocks(body, [], full)
        case Error => Error
        case Done(out, rest) => Checked(t, out, rest)
  }

  /** Section 2.2 of RFC 1952: members one after another, with nothing before, between or after them. */
  ghost function Standard(t: seq<nat>, z: seq<bool>, first: bool, all: seq<Byte>, full: bool): (r: Inflated)
    requires Table(t)
    decreases |z|
  {
    if |z| < 8 then (if first then Error else Inflated.Done(all, []))
    else
      match StdMember(t, z, full)
      case Error => Error
      case Done(out, rest) => Standard(t, rest, false, all + out, full)
  }

  ghost predicate LawfulMember(z: seq<bool>, full: bool) {
    NoReserved(z) && (SkipHeader(z).Ok? ==> LawfulBlocks(SkipHeader(z).rest, 0, full))
  }

  /** What follows the trailer. */
  ghost function TrailerEnd(rest: seq<bool>): (r: Parsed<()>)
    ensures r.Ok? ==> |r.rest| <= |rest|
  {
    var tail := Aligned(rest);
    if |tail| < 64 then Failed else Ok((), tail[64..])
  }

  ghost function BodyEnd(body: seq<bool>): (r: Parsed<()>)
    ensures r.Ok? ==> |r.rest| <= |body|
  {
    match BlocksSize(body, 0)
    case Failed => Failed
    case Ok(_, rest) => TrailerEnd(rest)
  }

  /** What follows a member, whether or not its checksum is right. */
  ghost function MemberEnd(z: seq<bool>): (r: Parsed<()>)
    ensures r.Ok? ==> |r.rest| < |z|
  {
    match SkipHeader(z)
    case Failed => Failed
    case Ok(_, body) => BodyEnd(body)
  }

  /**
   * The rules that the code leaves unchecked, all along a file: no zero byte where a member may begin, no reserved flag,
   * sound codes, no repetition of code lengths past their end, and no distance that reaches back before the member.
   * They are a matter of the bits of the file; neither checksums nor the bytes put out come into it.
   */
  ghost predicate Lawful(z: seq<bool>, full: bool)
    decreases |z|
  {
    |z| >= 8 ==>
      && FromLow(z[..8]) != 0 && LawfulMember(z, full)
      && (MemberEnd(z).Ok? ==> Lawful(MemberEnd(z).rest, full))
  }

  lemma StdMemberIs(t: seq<nat>, z: seq<bool>, win: seq<Byte>, full: bool)
    requires Table(t) && |win| == WINDOW
    ensures StdMember(t, z, full) == if LawfulMember(z, full) then MemberOf(t, z, win) else Error
    ensures MemberOf(t, z, win).Done? ==> MemberEnd(z) == Ok((), MemberOf(t, z, win).rest)
  {
    hide Blocks, StdBlocks, LawfulBlocks, BlocksSize, SkipHeader, NoReserved, SumLow, Finalise, Bytes, Little, Aligned, Table;
    if SkipHeader(z).Ok? {
      var body := SkipHeader(z).rest;
      StdBlocksIs(body, win, [], full);
      BlocksMeasured(body, win);
      assert win + [] == win;
    }
  }

  /** A file that starts with a zero byte, or with any other byte that starts no member, is refused. */
  lemma NoMember(t: seq<nat>, z: seq<bool>, full: bool)
    requires Table(t) && |z| >= 8 && FromLow(z[..8]) != 0x1f
    ensures SkipHeader(z).Failed? && StdMember(t, z, full).Error?
  {
    hide FromLow, StdBlocks, Checked, SkipFields;
  }

  /**
   * What the two standards make of a file is what the code makes of it, whatever the window held, if the file keeps the
   * rules that the code leaves unchecked, and an error if it does not.
   */
  lemma {:induction false} StandardIs(t: seq<nat>, z: seq<bool>, first: bool, all: seq<Byte>, win: seq<Byte>, full: bool)
    requires Table(t) && |win| == WINDOW
    ensures Standard(t, z, first, all, full) == if Lawful(z, full) then Gunzip(t, z, first, all, win) else Error
    decreases |z|
  {
    hide MemberOf, StdMember, LawfulMember, MemberEnd, FromLow, Turned, Table;
    if |z| >= 8 {
      if FromLow(z[..8]) != 0x1f { NoMember(t, z, full); }
      if FromLow(z[..8]) != 0 {
        StdMemberIs(t, z, win, full);
        var r := MemberOf(t, z, win);
        if r.Done? { StandardIs(t, r.rest, false, all + r.out, Turned(win + r.out), full); }
      }
    }
  }
}
