/** The codes of fixed and dynamic blocks (libc/gzip.c:514-651), per sections 3.2.6 and 3.2.7 of RFC 1951. */
module GzipTables {
  import opened Words
  import opened Counting
  import opened BitStream
  import opened CanonicalCode
  import opened Crc
  import opened GzipBits
  import opened GzipTree
  import opened GzipInflate

  // ---- fixed codes ----

  const FIXED_LIT: seq<Byte> := Copies(8, 144) + Copies(9, 112) + Copies(7, 24) + Copies(8, 8)
  const FIXED_DIST: seq<Byte> := Copies(5, 32)

  lemma {:induction false} KraftRepeat(lens: seq<Byte>, b: Byte, n: nat)
    requires Within(lens, MAX_BITS) && 0 < b <= MAX_BITS
    ensures Within(lens + Copies(b, n), MAX_BITS) && Kraft(lens + Copies(b, n), MAX_BITS) == Kraft(lens, MAX_BITS) + n * Pow2(MAX_BITS - b)
    decreases n
  {
    if n == 0 {
      assert lens + Copies(b, 0) == lens;
    } else {
      KraftRepeat(lens, b, n - 1);
      var w := lens + Copies(b, n);
      assert w[..|w| - 1] == lens + Copies(b, n - 1) && w[|w| - 1] == b;
      OneMore(n, Pow2(MAX_BITS - b));
    }
  }

  lemma OneMore(n: nat, x: nat)
    requires n > 0
    ensures (n - 1) * x + x == n * x
  {
  }

  lemma FixedPrefix()
    ensures PrefixCode(FIXED_LIT, MAX_BITS) && PrefixCode(FIXED_DIST, MAX_BITS)
  {
    hide Kraft, Copies;
    KraftRepeat([], 8, 144);
    KraftRepeat(Copies(8, 144), 9, 112);
    KraftRepeat(Copies(8, 144) + Copies(9, 112), 7, 24);
    KraftRepeat(Copies(8, 144) + Copies(9, 112) + Copies(7, 24), 8, 8);
    KraftRepeat([], 5, 32);
    assert [] + Copies(8, 144) == Copies(8, 144) && [] + Copies(5, 32) == Copies(5, 32);
    KraftNothing();
    SmallPowers();
  }

  /** Both fixed codes are complete for 7 to 9 and for 5 bits, so building their trees never fails. */
  lemma FixedUsable()
    ensures Usable(FIXED_LIT) && Usable(FIXED_DIST)
  {
    hide Kraft, DistinctCodes, Copies;
    FixedPrefix();
    KraftDistinct(FIXED_LIT);
    KraftDistinct(FIXED_DIST);
  }

  lemma KraftNothing()
    ensures Kraft([], MAX_BITS) == 0
  {
  }

  lemma SmallPowers()
    ensures Pow2(6) == 64 && Pow2(7) == 128 && Pow2(8) == 256 && Pow2(10) == 1024 && Pow2(15) == 32768
  {
    Pow2Values();
    Pow2Add(8, 7);
    assert Pow2(10) == 2 * Pow2(9) && Pow2(9) == 2 * Pow2(8) && Pow2(8) == 2 * Pow2(7) && Pow2(7) == 2 * Pow2(6);
  }

  // ---- dynamic codes ----

  const CL_ORDER: seq<nat> := [16, 17, 18, 0, 8, 7, 9, 6, 10, 5, 11, 4, 12, 3, 13, 2, 14, 1, 15]

  /** Lengths of the code length code: three bits each, in the order of RFC 1951, the rest zero. */
  ghost function CodeLengthLens(z: seq<bool>, i: nat, n: nat, acc: seq<Byte>): (r: Parsed<seq<Byte>>)
    requires i <= n <= 19 && |acc| == 19
    ensures r.Ok? ==> |r.value| == 19 && |r.rest| <= |z|
    decreases n - i
  {
    if i == n then Ok(acc, z)
    else if |z| < 3 then Failed
    else
      ThreeBits(z[..3]);
      CodeLengthLens(z[3..], i + 1, n, acc[CL_ORDER[i] := FromLow(z[..3])])
  }

  lemma ThreeBits(b: seq<bool>)
    requires |b| <= 8
    ensures FromLow(b) < 256
  {
    FromLowBound(b);
    Pow2Values();
    if |b| < 8 { Pow2Add(|b|, 8 - |b|); Scale(1, Pow2(8 - |b|), Pow2(|b|)); }
  }

  function Least(a: nat, b: nat): nat {
    if a < b then a else b
  }

  /** The symbols of the code length code: a length, the last length 3 to 6 times, or 3 to 10 or 11 to 138 zeros; what reaches past the end is cut. */
  ghost function CodeLengths(cl: seq<Byte>, z: seq<bool>, total: nat, acc: seq<Byte>): (r: Parsed<seq<Byte>>)
    requires |cl| == 19 && |acc| <= total
    ensures r.Ok? ==> |r.value| == total && |r.rest| <= |z|
    decreases |z|
  {
    if |acc| == total then Ok(acc, z)
    else
      match Lookup(cl, z, 0)
      case Failed => Failed
      case Ok(sym, z1) =>
        if sym <= 15 then CodeLengths(cl, z1, total, acc + [sym])
        else if sym == 16 && acc == [] then Failed
        else
          match Extra(RepeatBase(sym), RepeatBits(sym), z1)
          case Failed => Failed
          case Ok(rep, z2) =>
            CodeLengths(cl, z2, total, acc + Copies(if sym == 16 then acc[|acc| - 1] else 0, Least(rep, total - |acc|)))
  }

  function RepeatBase(sym: nat): nat {
    if sym == 18 then 11 else 3
  }

  function RepeatBits(sym: nat): nat {
    if sym == 16 then 2 else if sym == 17 then 3 else 7
  }

  datatype Codes = Codes(lit: seq<Byte>, dst: seq<Byte>)

  /** The two codes that a dynamic block starts with. */
  ghost function Tables(z: seq<bool>): (r: Parsed<Codes>)
    ensures r.Ok? ==> |r.rest| <= |z|
  {
    if |z| < 14 then Failed
    else
      FourBits(z[10..14]);
      TablesOf(z[14..], FromLow(z[..5]) + 257, FromLow(z[5..10]) + 1, FromLow(z[10..14]) + 4)
  }

  ghost function TablesOf(z: seq<bool>, hlit: nat, hdist: nat, hclen: nat): (r: Parsed<Codes>)
    requires hclen <= 19
    ensures r.Ok? ==> |r.rest| <= |z|
  {
    if hlit > 286 || hdist > 32 then Failed
    else
      match CodeLengthLens(z, 0, hclen, Copies(0, 19))
      case Failed => Failed
      case Ok(cl, z1) =>
        if !Usable(cl) then Failed
        else
          match CodeLengths(cl, z1, hlit + hdist, [])
          case Failed => Failed
          case Ok(lens, z2) =>
            if Usable(lens[..hlit]) && Usable(lens[hlit..]) then Ok(Codes(lens[..hlit], lens[hlit..]), z2) else Failed
  }

  lemma FourBits(b: seq<bool>)
    requires |b| == 4
    ensures FromLow(b) <= 15
  {
    FromLowBound(b);
    Pow2Values();
    Pow2Add(4, 4);
    assert Pow2(4) == 16 by { assert Pow2(4) == 2 * Pow2(3) && Pow2(3) == 2 * Pow2(2) && Pow2(2) == 2 * Pow2(1); }
  }

  ghost function Fixed(z: seq<bool>, hist: seq<Byte>): (r: Inflated)
    requires |hist| >= WINDOW
    ensures r.Done? ==> hist <= r.out && |r.rest| <= |z|
  {
    Expand(FIXED_LIT, FIXED_DIST, z, hist)
  }

  ghost function Dynamic(z: seq<bool>, hist: seq<Byte>): (r: Inflated)
    requires |hist| >= WINDOW
    ensures r.Done? ==> hist <= r.out && |r.rest| <= |z|
  {
    match Tables(z)
    case Failed => Error
    case Ok(codes, rest) => Expand(codes.lit, codes.dst, rest, hist)
  }

  // ---- inflate_fixed ----

  /** The trees of fixed blocks, built on first use and kept. */
  class FixedTrees {
    const lit: HuffTree
    const dist: HuffTree
    var ready: bool

    ghost predicate Shape() {
      lit.Shape() && dist.Shape() && lit != dist && {lit.left, lit.right, lit.sym} !! {dist.left, dist.right, dist.sym}
    }

    ghost predicate Valid()
      reads this, lit, lit.left, lit.right, lit.sym, dist, dist.left, dist.right, dist.sym
    {
      Shape() && (ready ==> lit.Ready() && dist.Ready() && lit.lens == FIXED_LIT && dist.lens == FIXED_DIST)
    }

    constructor ()
      ensures Valid() && fresh(lit) && fresh(lit.left) && fresh(lit.right) && fresh(lit.sym)
      ensures fresh(dist) && fresh(dist.left) && fresh(dist.right) && fresh(dist.sym)
    {
      lit := new HuffTree();
      dist := new HuffTree();
      ready := false;
    }

    method Prepare() returns (ok: bool)
      requires Valid()
      modifies this, lit, lit.left, lit.right, lit.sym, dist, dist.left, dist.right, dist.sym
      ensures ok && Valid() && ready
    {
      hide HuffTree.Ready, Usable, Copies;
      if !ready {
        FixedUsable();
        var lens := new Byte[288];
        Fill(lens, 0, 144, 8);
        Fill(lens, 144, 256, 9);
        Fill(lens, 256, 280, 7);
        Fill(lens, 280, 288, 8);
        assert lens[..] == FIXED_LIT;
        var dists := new Byte[32];
        Fill(dists, 0, 32, 5);
        assert dists[..] == FIXED_DIST;
        ok := Build(lit, lens[..]);
        if !ok { return; }
        ok := Build(dist, dists[..]);
        if !ok { return; }
        ready := true;
      }
      ok := true;
    }
  }

  method Fill(a: array<Byte>, from: nat, to: nat, b: Byte)
    requires from <= to <= a.Length
    modifies a
    ensures a[from..to] == Copies(b, to - from)
    ensures forall i :: 0 <= i < a.Length && !(from <= i < to) ==> a[i] == old(a[i])
  {
    for k := from to to
      invariant forall i :: 0 <= i < a.Length && !(from <= i < k) ==> a[i] == old(a[i])
      invariant forall i :: from <= i < k ==> a[i] == b
    {
      a[k] := b;
    }
  }

  /** How a block's decoding ends. */
  ghost predicate Refines(spec: Inflated, ok: bool, hist: seq<Byte>, rest: seq<bool>) {
    spec == if ok then Inflated.Done(hist, rest) else Inflated.Error
  }

  method InflateFixed(bs: Source, trees: FixedTrees, m: Member) returns (ok: bool)
    requires bs.Valid() && m.Valid() && trees.Valid()
    modifies bs, m, m.win
    modifies trees, trees.lit, trees.lit.left, trees.lit.right, trees.lit.sym, trees.dist, trees.dist.left, trees.dist.right, trees.dist.sym
    ensures bs.Valid() && m.Valid() && trees.Valid() && Follows(m, old(m.out), old(m.all))
    ensures |m.stale| == WINDOW && Refines(Fixed(old(bs.Rest()), m.stale + old(m.out)), ok, m.stale + m.out, bs.Rest())
  {
    hide Source.Valid, Source.Rest, Member.Valid, HuffTree.Ready, Expand;
    StaleFull(m);
    ok := trees.Prepare();
    ok := InflateCodes(bs, trees.lit, trees.dist, m);
  }

  // ---- inflate_dynamic ----

  method ReadCodeLengthLens(bs: Source, n: nat) returns (ok: bool, cl: array<Byte>)
    requires bs.Valid() && n <= 19
    modifies bs
    ensures bs.Valid() && fresh(cl) && cl.Length == 19
    ensures CodeLengthLens(old(bs.Rest()), 0, n, Copies(0, 19)) == if ok then Ok(cl[..], bs.Rest()) else Failed
  {
    hide Source.Valid, Source.Rest, FromLow, Copies;
    cl := new Byte[19](_ => 0);
    assert cl[..] == Copies(0, 19);
    ghost var z := bs.Rest();
    for i := 0 to n
      invariant bs.Valid() && CodeLengthLens(z, 0, n, Copies(0, 19)) == CodeLengthLens(bs.Rest(), i, n, cl[..])
    {
      ghost var now, was := bs.Rest(), cl[..];
      var v;
      ok, v := bs.Read(3);
      if !ok { return; }
      ThreeBits(now[..3]);
      cl[CL_ORDER[i]] := v;
      assert cl[..] == was[CL_ORDER[i] := v];
    }
    ok := true;
  }

  /** The same length again and again, up to the end of the table. */
  method RepeatLength(lens: array<Byte>, i: nat, total: nat, b: Byte, rep: nat) returns (j: nat)
    requires i <= total <= lens.Length
    modifies lens
    ensures j <= total && lens[..j] == old(lens[..i]) + Copies(b, Least(rep, total - i))
  {
    j := i;
    var k := 0;
    while k < rep && j < total
      invariant j == i + k && k <= rep && j <= total && lens[..j] == old(lens[..i]) + Copies(b, k)
    {
      lens[j] := b;
      assert lens[..j + 1] == lens[..j] + [b];
      assert Copies(b, k + 1) == Copies(b, k) + [b];
      j, k := j + 1, k + 1;
    }
  }

  method ReadCodeLengths(bs: Source, cl: HuffTree, lens: array<Byte>, total: nat) returns (ok: bool)
    requires bs.Valid() && cl.Ready() && |cl.lens| == 19 && total <= lens.Length
    modifies bs, lens
    ensures bs.Valid()
    ensures CodeLengths(cl.lens, old(bs.Rest()), total, []) == if ok then Ok(lens[..total], bs.Rest()) else Failed
  {
    hide Source.Valid, Source.Rest, Lookup, HuffTree.Ready, Extra, Copies;
    ghost var spec := CodeLengths(cl.lens, bs.Rest(), total, []);
    var i: nat := 0;
    assert lens[..0] == [];
    while i < total
      invariant bs.Valid() && i <= total && spec == CodeLengths(cl.lens, bs.Rest(), total, lens[..i])
      decreases |bs.Rest()|
    {
      ghost var before := lens[..i];
      var fine, sym := Decode(bs, cl);
      if !fine { return false; }
      if sym <= 15 {
        lens[i] := sym;
        assert lens[..i + 1] == before + [sym as Byte];
        i := i + 1;
      } else {
        if sym == 16 && i == 0 { return false; }
        var rep;
        fine, rep := ReadExtra(bs, RepeatBase(sym), RepeatBits(sym));
        if !fine { return false; }
        var b := if sym == 16 then lens[i - 1] else 0;
        i := RepeatLength(lens, i, total, b, rep);
      }
    }
    ok := true;
  }

  method ReadCounts(bs: Source) returns (ok: bool, hlit: nat, hdist: nat, hclen: nat)
    requires bs.Valid()
    modifies bs
    ensures bs.Valid() && hclen <= 19
    ensures Tables(old(bs.Rest())) == if ok then TablesOf(bs.Rest(), hlit, hdist, hclen) else Failed
  {
    hide Source.Valid, Source.Rest, FromLow, TablesOf;
    ghost var z := bs.Rest();
    hdist, hclen := 0, 0;
    var v;
    ok, hlit := bs.Read(5);
    if !ok { return; }
    ok, hdist := bs.Read(5);
    if !ok { return; }
    ok, v := bs.Read(4);
    if !ok { return; }
    HeaderFields(z);
    FourBits(z[10..14]);
    hlit, hdist, hclen := hlit + 257, hdist + 1, v + 4;
  }

  lemma HeaderFields(z: seq<bool>)
    requires |z| >= 14
    ensures z[5..][..5] == z[5..10] && z[5..][5..][..4] == z[10..14] && z[5..][5..][4..] == z[14..]
  {
  }

  method ReadTables(bs: Source, cl: HuffTree, lit: HuffTree, dist: HuffTree) returns (ok: bool)
    requires bs.Valid() && cl.Shape() && lit.Shape() && dist.Shape()
    requires lit != dist && cl != lit && cl != dist && {lit.left, lit.right, lit.sym} !! {dist.left, dist.right, dist.sym}
    modifies bs, cl, cl.left, cl.right, cl.sym, lit, lit.left, lit.right, lit.sym, dist, dist.left, dist.right, dist.sym
    ensures bs.Valid()
    ensures ok ==> lit.Ready() && dist.Ready()
    ensures Tables(old(bs.Rest())) == if ok then Ok(Codes(lit.lens, dist.lens), bs.Rest()) else Failed
  {
    hide Source.Valid, Source.Rest, HuffTree.Ready, Usable, Copies, CodeLengths, CodeLengthLens, Tables;
    var hlit, hdist, hclen;
    ok, hlit, hdist, hclen := ReadCounts(bs);
    if !ok { return; }
    if hlit > 286 || hdist > 32 { return false; }
    var clLens;
    ok, clLens := ReadCodeLengthLens(bs, hclen);
    if !ok { return; }
    ok := Build(cl, clLens[..]);
    if !ok { return; }
    var lens := new Byte[320];
    ok := ReadCodeLengths(bs, cl, lens, hlit + hdist);
    if !ok { return; }
    ghost var all := lens[..hlit + hdist];
    assert all[..hlit] == lens[..hlit] && all[hlit..] == lens[hlit..hlit + hdist];
    ok := Build(lit, lens[..hlit]);
    if !ok { return; }
    ok := Build(dist, lens[hlit..hlit + hdist]);
  }

  method InflateDynamic(bs: Source, m: Member) returns (ok: bool)
    requires bs.Valid() && m.Valid()
    modifies bs, m, m.win
    ensures bs.Valid() && m.Valid() && Follows(m, old(m.out), old(m.all))
    ensures |m.stale| == WINDOW && Refines(Dynamic(old(bs.Rest()), m.stale + old(m.out)), ok, m.stale + m.out, bs.Rest())
  {
    hide Source.Valid, Source.Rest, Member.Valid, HuffTree.Ready, Expand, Tables;
    StaleFull(m);
    var cl := new HuffTree();
    var lit := new HuffTree();
    var dist := new HuffTree();
    ok := ReadTables(bs, cl, lit, dist);
    if !ok {
      assert m.out[|m.out|..] == [];
      return;
    }
    ok := InflateCodes(bs, lit, dist, m);
  }
}
