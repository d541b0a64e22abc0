/** Inflating: literals and copies over a 32 KiB circular window (libc/gzip.c:60-84, 394-512). */
module GzipInflate {
  import opened Words
  import opened BitStream
  import opened Crc
  import opened GzipBits
  import opened GzipTree

  const WINDOW := 32768

  const LEN_BASE: seq<nat> := [3, 4, 5, 6, 7, 8, 9, 10, 11, 13, 15, 17, 19, 23, 27, 31, 35, 43, 51, 59, 67, 83, 99, 115, 131, 163, 195, 227, 258]
  const LEN_EXTRA: seq<nat> := [0, 0, 0, 0, 0, 0, 0, 0, 1, 1, 1, 1, 2, 2, 2, 2, 3, 3, 3, 3, 4, 4, 4, 4, 5, 5, 5, 5, 0]
  const DIST_BASE: seq<nat> := [1, 2, 3, 4, 5, 7, 9, 13, 17, 25, 33, 49, 65, 97, 129, 193, 257, 385, 513, 769,
                                1025, 1537, 2049, 3073, 4097, 6145, 8193, 12289, 16385, 24577]
  const DIST_EXTRA: seq<nat> := [0, 0, 0, 0, 1, 1, 2, 2, 3, 3, 4, 4, 5, 5, 6, 6, 7, 7, 8, 8, 9, 9, 10, 10, 11, 11, 12, 12, 13, 13]

  // ---- the checksum of gzip: least significant bit first ----

  /** aux_crc32_update_byte */
  function UpdateLow(t: seq<nat>, crc: nat, b: Byte): (r: nat)
    requires Table(t) && crc < WORD
    ensures r < WORD
  {
    Pow2Values();
    XorBound(t[Xor(crc, b) % 256], crc / 256, 32);
    Xor(t[Xor(crc, b) % 256], crc / 256)
  }

  ghost function SumLow(t: seq<nat>, s: seq<Byte>): (r: nat)
    requires Table(t)
    ensures r < WORD
    decreases |s|
  {
    if s == [] then INITIAL else UpdateLow(t, SumLow(t, s[..|s| - 1]), s[|s| - 1])
  }

  // ---- what a stream of codes stands for ----

  /** Repeat n bytes from d back; the source of a long copy is what it has just written. */
  ghost function Copy(out: seq<Byte>, n: nat, d: nat): (r: seq<Byte>)
    requires 0 < d <= |out|
    ensures |r| == |out| + n && out <= r
    decreases n
  {
    if n == 0 then out else Copy(out + [out[|out| - d]], n - 1, d)
  }

  /** The outcome of inflating: the bytes so far and the bits that follow, or an error. */
  datatype Inflated = Done(out: seq<Byte>, rest: seq<bool>) | Error

  /** A base value plus some extra bits. */
  ghost function Extra(base: nat, n: nat, z: seq<bool>): (r: Parsed<nat>)
    ensures r.Ok? ==> |r.rest| <= |z| && base <= r.value < base + Pow2(n)
  {
    if |z| < n then Failed
    else
      FromLowBound(z[..n]);
      Ok(base + FromLow(z[..n]), z[n..])
  }

  ghost function Distance(dst: seq<Byte>, z: seq<bool>): (r: Parsed<nat>)
    ensures r.Ok? ==> |r.rest| <= |z| && r.value >= 1
  {
    match Lookup(dst, z, 0)
    case Failed => Failed
    case Ok(d, rest) => if d >= 30 then Failed else Extra(DIST_BASE[d], DIST_EXTRA[d], rest)
  }

  /** The next literal, match or end of the block. */
  datatype Step = Bad | End(z: seq<bool>) | Literal(b: Byte, z: seq<bool>) | Match(length: nat, dist: nat, z: seq<bool>)

  ghost function Next(lit: seq<Byte>, dst: seq<Byte>, z: seq<bool>): (s: Step)
    ensures !s.Bad? ==> |s.z| < |z|
    ensures s.Match? ==> 0 < s.dist <= WINDOW && s.length >= 3
  {
    match Lookup(lit, z, 0)
    case Failed => Bad
    case Ok(sym, z1) =>
      if sym < 256 then Literal(sym, z1)
      else if sym == 256 then End(z1)
      else if sym > 285 then Bad
      else
        match Extra(LEN_BASE[sym - 257], LEN_EXTRA[sym - 257], z1)
        case Failed => Bad
        case Ok(length, z2) =>
          match Distance(dst, z2)
          case Failed => Bad
          case Ok(dist, z3) => if dist > WINDOW then Bad else Match(length, dist, z3)
  }

  /**
   * LZ77 expansion over unbounded history, the two codes given by their lengths. The first WINDOW bytes of the history
   * are from before the member, and distances may reach into them.
   */
  ghost function Expand(lit: seq<Byte>, dst: seq<Byte>, z: seq<bool>, hist: seq<Byte>): (r: Inflated)
    requires |hist| >= WINDOW
    ensures r.Done? ==> hist <= r.out && |r.rest| <= |z|
    decreases |z|
  {
    match Next(lit, dst, z)
    case Bad => Error
    case End(rest) => Done(hist, rest)
    case Literal(b, rest) => Expand(lit, dst, rest, hist + [b])
    case Match(length, dist, rest) =>
      Expand(lit, dst, rest, Copy(hist, length, dist))
  }

  // ---- the window ----

  /** The cell of the window that holds byte k of the member. */
  ghost predicate Keeps(win: seq<Byte>, out: seq<Byte>) {
    |win| == WINDOW && forall k :: 0 <= k < |out| && |out| - WINDOW <= k ==> win[k % WINDOW] == out[k]
  }

  /** Which byte of a history of n bytes cell i of the window holds. */
  function Held(n: nat, i: nat): (k: nat)
    requires n >= WINDOW && i < WINDOW
    ensures n - WINDOW <= k < n && k % WINDOW == i
  {
    HeldAt(n, i);
    n - WINDOW + (i - n) % WINDOW
  }

  lemma HeldAt(n: nat, i: nat)
    requires n >= WINDOW && i < WINDOW
    ensures (n - WINDOW + (i - n) % WINDOW) % WINDOW == i
  {
    var q := (i - n) / WINDOW;
    assert i - n == q * WINDOW + (i - n) % WINDOW;
    Quotient(n - WINDOW + (i - n) % WINDOW, -1 - q, WINDOW, i);
  }

  /** The window behind a history. */
  ghost function Turned(hist: seq<Byte>): (win: seq<Byte>)
    requires |hist| >= WINDOW
    ensures |win| == WINDOW
  {
    seq(WINDOW, i requires 0 <= i < WINDOW => hist[Held(|hist|, i)])
  }

  lemma KeptWhole(win: seq<Byte>, hist: seq<Byte>)
    requires |hist| >= WINDOW && Keeps(win, hist)
    ensures win == Turned(hist)
  {
    forall i | 0 <= i < WINDOW ensures win[i] == Turned(hist)[i] { KeptAt(win, hist, Held(|hist|, i)); }
  }

  lemma KeepsMore(win: seq<Byte>, out: seq<Byte>, b: Byte)
    requires Keeps(win, out)
    ensures Keeps(win[|out| % WINDOW := b], out + [b])
  {
    var n := |out|;
    var win', out' := win[n % WINDOW := b], out + [b];
    forall k | 0 <= k < |out'| && |out'| - WINDOW <= k
      ensures win'[k % WINDOW] == out'[k]
    {
      if k < n { DifferentCells(k, n); }
    }
  }

  lemma DifferentCells(k: nat, n: nat)
    requires k < n < k + WINDOW
    ensures k % WINDOW != n % WINDOW
  {
    var a, b := k / WINDOW, n / WINDOW;
    assert k == WINDOW * a + k % WINDOW && n == WINDOW * b + n % WINDOW;
  }

  /** (wpos - d) & (WINDOW - 1), in unsigned arithmetic, where the history is n bytes long. */
  lemma BackCell(n: nat, d: nat)
    requires 0 < d <= WINDOW <= n
    ensures (n % WINDOW - d) % WINDOW == (n - d) % WINDOW
  {
    var a := n / WINDOW;
    assert n == WINDOW * a + n % WINDOW;
    assert (n - d) % WINDOW == (n % WINDOW - d + WINDOW * a) % WINDOW;
  }

  /** The output side of a member: all output, window, checksum and size. What the window holds at the start stays behind as history. */
  class Member {
    const win: array<Byte>
    const table: seq<nat>
    var all: seq<Byte>
    var wpos: nat
    var crc: nat
    var usize: nat
    ghost const stale: seq<Byte>
    ghost var out: seq<Byte>

    ghost predicate Valid()
      reads this, win
    {
      && Table(table) && win.Length == WINDOW == |stale| && Keeps(win[..], stale + out) && wpos == |out| % WINDOW
      && crc < WORD && crc == SumLow(table, out) && usize == |out| % WORD
    }

    constructor (window: array<Byte>, crcTable: seq<nat>, before: seq<Byte>)
      requires window.Length == WINDOW && Table(crcTable)
      ensures Valid() && out == [] && all == before && win == window && table == crcTable && stale == window[..]
    {
      win, table, all, wpos, crc, usize, out := window, crcTable, before, 0, INITIAL, 0, [];
      stale := window[..];
      new;
      KeepsStart(win[..]);
      assert stale + [] == stale;
    }

    /** A byte goes to the output, into the window, into checksum and size. */
    method Put(b: Byte)
      requires Valid()
      modifies this, win
      ensures Valid() && out == old(out) + [b] && all == old(all) + [b]
    {
      hide UpdateLow, Keeps;
      ghost var w, was := win[..], out;
      KeepsMore(w, stale + out, b);
      SamePlace(|was|);
      all := all + [b];
      win[wpos % WINDOW] := b;
      assert win[..] == w[|stale + was| % WINDOW := b];
      Regroup(stale, was, [b]);
      wpos := (wpos + 1) % WINDOW;
      NextPosition(|was|);
      assert (was + [b])[..|was|] == was;
      crc := UpdateLow(table, crc, b);
      usize := (usize + 1) % WORD;
      out := out + [b];
    }

    /** The copy loop of one match, over the member so far and what the window held before it. */
    method CopyBack(length: nat, dist: nat)
      requires Valid() && 0 < dist <= WINDOW
      modifies this, win
      ensures Valid() && old(out) <= out && all == old(all) + out[|old(out)|..]
      ensures stale + out == Copy(stale + old(out), length, dist)
    {
      hide Keeps, SumLow;
      ghost var was := out;
      for i := 0 to length
        invariant Valid() && was <= out && all == old(all) + out[|was|..]
        invariant Copy(stale + out, length - i, dist) == Copy(stale + was, length, dist)
      {
        ghost var now := out;
        ghost var hist := stale + out;
        SamePlace(|out|);
        BackCell(|hist|, dist);
        KeptAt(win[..], hist, |hist| - dist);
        var b := win[(wpos - dist) % WINDOW];
        Put(b);
        Regroup(stale, now, [b]);
        assert out[|was|..] == now[|was|..] + [b];
      }
    }
  }

  lemma SamePlace(n: nat)
    ensures (WINDOW + n) % WINDOW == n % WINDOW
  {
  }

  lemma KeepsStart(win: seq<Byte>)
    requires |win| == WINDOW
    ensures Keeps(win, win)
  {
    forall k | 0 <= k < WINDOW ensures win[k % WINDOW] == win[k] { Quotient(k, 0, WINDOW, k); }
  }

  // ---- inflate_codes ----

  ghost predicate Follows(m: Member, out0: seq<Byte>, all0: seq<Byte>)
    reads m
  {
    out0 <= m.out && m.all == all0 + m.out[|out0|..]
  }

  /** A base value plus the extra bits that follow. */
  method ReadExtra(bs: Source, base: nat, n: nat) returns (ok: bool, v: nat)
    requires bs.Valid()
    modifies bs
    ensures bs.Valid() && (ok <==> Extra(base, n, old(bs.Rest())).Ok?)
    ensures ok ==> Extra(base, n, old(bs.Rest())) == Ok(v, bs.Rest())
  {
    hide Source.Valid, Source.Rest, FromLow;
    v := base;
    var extra;
    ok, extra := bs.Read(n);
    v := base + extra;
  }

  method ReadDistance(bs: Source, dst: HuffTree) returns (ok: bool, dist: nat)
    requires bs.Valid() && dst.Ready()
    modifies bs
    ensures bs.Valid() && (ok <==> Distance(dst.lens, old(bs.Rest())).Ok?)
    ensures ok ==> Distance(dst.lens, old(bs.Rest())) == Ok(dist, bs.Rest())
  {
    hide Source.Valid, Source.Rest, Lookup, HuffTree.Ready, Extra;
    dist := 0;
    var fine, sym := Decode(bs, dst);
    if !fine { return false, 0; }
    if sym >= 30 { return false, 0; }
    ok, dist := ReadExtra(bs, DIST_BASE[sym], DIST_EXTRA[sym]);
  }

  /** One length and distance pair, after its symbol. */
  method InflateMatch(bs: Source, dst: HuffTree, m: Member, sym: nat, ghost spec: Inflated, ghost lit: seq<Byte>, ghost z0: seq<bool>,
                      ghost out0: seq<Byte>, ghost all0: seq<Byte>)
    returns (ok: bool)
    requires bs.Valid() && m.Valid() && dst.Ready() && 257 <= sym <= 285 && Follows(m, out0, all0)
    requires |m.stale| == WINDOW && spec == Expand(lit, dst.lens, z0, m.stale + m.out) && Lookup(lit, z0, 0) == Ok(sym, bs.Rest())
    modifies bs, m, m.win
    ensures bs.Valid() && m.Valid() && Follows(m, out0, all0)
    ensures if ok then spec == Expand(lit, dst.lens, bs.Rest(), m.stale + m.out) else spec.Error?
    ensures ok ==> |bs.Rest()| <= |old(bs.Rest())|
  {
    hide Source.Valid, Source.Rest, Member.Valid, Lookup, HuffTree.Ready, Copy, Extra, Distance;
    var fine, length := ReadExtra(bs, LEN_BASE[sym - 257], LEN_EXTRA[sym - 257]);
    if !fine { return false; }
    var dist;
    fine, dist := ReadDistance(bs, dst);
    if !fine { return false; }
    if dist <= 0 || dist > WINDOW { return false; }
    ghost var before, allBefore := m.out, m.all;
    m.CopyBack(length, dist);
    StillFollows(out0, all0, before, allBefore, m.out, m.all);
    ok := true;
  }

  lemma StillFollows(out0: seq<Byte>, all0: seq<Byte>, before: seq<Byte>, allBefore: seq<Byte>, out: seq<Byte>, all: seq<Byte>)
    requires out0 <= before <= out && allBefore == all0 + before[|out0|..] && all == allBefore + out[|before|..]
    ensures out0 <= out && all == all0 + out[|out0|..]
  {
    assert out[|out0|..] == before[|out0|..] + out[|before|..];
  }

  /** inflate_codes: the output is exactly the LZ77 expansion over the window and the member, and an error is reported exactly for bad codes. */
  method InflateCodes(bs: Source, lit: HuffTree, dst: HuffTree, m: Member) returns (ok: bool)
    requires bs.Valid() && m.Valid() && lit.Ready() && dst.Ready()
    modifies bs, m, m.win
    ensures bs.Valid() && m.Valid() && Follows(m, old(m.out), old(m.all))
    ensures Expand(lit.lens, dst.lens, old(bs.Rest()), m.stale + old(m.out)) == if ok then Done(m.stale + m.out, bs.Rest()) else Error
  {
    hide Source.Valid, Source.Rest, Member.Valid, Lookup, HuffTree.Ready, Extra, Distance, Next, Copy, Expand;
    StaleFull(m);
    ghost var l, d := lit.lens, dst.lens;
    ghost var out0, all0 := m.out, m.all;
    ghost var spec := Expand(l, d, bs.Rest(), m.stale + m.out);
    assert out0[|out0|..] == [];
    while true
      invariant bs.Valid() && m.Valid() && Follows(m, out0, all0) && spec == Expand(l, d, bs.Rest(), m.stale + m.out)
      decreases |bs.Rest()|
    {
      ghost var z, before, allBefore := bs.Rest(), m.out, m.all;
      ExpandCases(l, d, z, m.stale + m.out);
      var fine, sym := Decode(bs, lit);
      if !fine { return false; }
      if sym < 256 {
        m.Put(sym);
        Regroup(m.stale, before, [sym as Byte]);
        assert m.out[|before|..] == [sym as Byte];
        StillFollows(out0, all0, before, allBefore, m.out, m.all);
        continue;
      }
      if sym == 256 { return true; }
      if sym > 285 { return false; }
      fine := InflateMatch(bs, dst, m, sym, spec, l, z, out0, all0);
      if !fine { return false; }
    }
  }

  lemma ExpandCases(lit: seq<Byte>, dst: seq<Byte>, z: seq<bool>, hist: seq<Byte>)
    requires |hist| >= WINDOW
    ensures var sym := Lookup(lit, z, 0);
            if sym.Failed? then Expand(lit, dst, z, hist) == Error
            else if sym.value < 256 then Expand(lit, dst, z, hist) == Expand(lit, dst, sym.rest, hist + [sym.value])
            else if sym.value == 256 then Expand(lit, dst, z, hist) == Done(hist, sym.rest)
            else sym.value > 285 ==> Expand(lit, dst, z, hist) == Error
  {
    hide Lookup, Extra, Distance;
  }

  lemma StaleFull(m: Member)
    requires m.Valid()
    ensures |m.stale| == WINDOW
  {
  }

  lemma NextPosition(n: nat)
    ensures (n % WINDOW + 1) % WINDOW == (n + 1) % WINDOW && (n % WORD + 1) % WORD == (n + 1) % WORD
    ensures n % WINDOW % WINDOW == n % WINDOW
  {
    NextIn(n, WINDOW);
    NextIn(n, WORD);
    Quotient(n % WINDOW, 0, WINDOW, n % WINDOW);
  }

  lemma NextIn(n: nat, m: nat)
    requires m > 1
    ensures (n % m + 1) % m == (n + 1) % m
  {
    DivMod(n, m);
    var q, r := n / m, n % m;
    if r + 1 < m {
      Quotient(n + 1, q, m, r + 1);
      Quotient(r + 1, 0, m, r + 1);
    } else {
      Spread(q, 1, m);
      Quotient(n + 1, q + 1, m, 0);
      Quotient(m, 1, m, 0);
    }
  }

  lemma KeptAt(win: seq<Byte>, out: seq<Byte>, k: nat)
    requires Keeps(win, out) && k < |out| && |out| - WINDOW <= k
    ensures win[k % WINDOW] == out[k]
  {
  }
}
