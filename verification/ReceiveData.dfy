/** Decoding a block's symbols into its last column (libc/decompress.c:74-102, 324-522). */
module ReceiveData {
  import opened Words
  import opened Counting
  import opened BitStream
  import opened CanonicalCode
  import opened CodeTables
  import opened MoveToFront
  import opened MtfCoding
  import opened MtfEncoder
  import opened BlockFormat
  import opened BlockData

  // ---- reading one symbol ----

  /** The decoding tables of one code. */
  class DecodeTable {
    const limit: array<int>
    const base: array<int>
    const perm: array<int>
    var minLen: nat
    ghost var maxLen: nat

    ghost predicate For(lens: seq<Byte>)
      reads this, limit, base, perm
    {
      Tables(lens, minLen, maxLen, limit[..], base[..], perm[..]) && perm.Length == MAX_ALPHA
    }

    constructor (lens: seq<Byte>)
      requires Coded(lens)
      ensures For(lens) && fresh(limit) && fresh(base) && fresh(perm)
    {
      hide Tables, Spans;
      limit, base, perm := new int[TABLE_LEN], new int[TABLE_LEN], new int[MAX_ALPHA];
      new;
      var n := |lens|;
      var length := new Byte[n](i requires 0 <= i < n => lens[i]);
      assert length[..n] == lens;
      var lo, hi := Extremes(length, n);
      minLen, maxLen := lo, hi;
      CreateDecodeTables(limit, base, perm, length, lo, hi, n);
    }
  }

  /** The decoders at work: one for each coding table. */
  ghost predicate Ready(decs: seq<DecodeTable>, tables: seq<seq<Byte>>)
    reads decs, set d | d in decs :: d.limit, set d | d in decs :: d.base, set d | d in decs :: d.perm
  {
    |decs| == |tables| && forall t :: 0 <= t < |tables| ==> decs[t].For(tables[t])
  }

  /** Group number and symbols left in the group, when k symbols have been read. */
  ghost predicate Synced(groupNo: int, groupPos: int, nSelectors: nat, k: nat) {
    && -1 <= groupNo && 0 <= groupPos < GROUP_SIZE && k == GROUP_SIZE * (groupNo + 1) - groupPos
    && (groupPos > 0 ==> 0 <= groupNo < nSelectors)
  }

  /** GET_MTF_VAL */
  method NextSym(r: BitReader, decs: seq<DecodeTable>, selector: seq<int>, groupNo0: int, groupPos0: int,
                 ghost tables: seq<seq<Byte>>, ghost n: nat, ghost k: nat)
    returns (st: Status, sym: nat, groupNo: int, groupPos: int)
    requires r.Valid() && Ready(decs, tables) && Coding(tables, selector, n) && Synced(groupNo0, groupPos0, |selector|, k)
    modifies r
    ensures r.Valid() && NextSymbol(tables, selector, n, k, old(r.Rest())) == Outcome(st, sym, r.Rest())
    ensures st.Done? ==> Synced(groupNo, groupPos, |selector|, k + 1) && sym < n + 2
  {
    hide BitReader.Valid, BitReader.Rest, DecodeSymbol, Tables;
    st, sym, groupNo, groupPos := DataError, 0, groupNo0, groupPos0;
    if groupPos == 0 {
      groupNo := groupNo + 1;
      if groupNo >= |selector| { return; }
      groupPos := GROUP_SIZE;
    }
    assert k / GROUP_SIZE == groupNo;
    groupPos := groupPos - 1;
    var d := decs[selector[groupNo]];
    ghost var lens := tables[selector[groupNo]];
    assert d.For(lens);
    st, sym := ReadSymbol(r, d.limit, d.base, d.perm, d.minLen, lens, d.maxLen);
  }

  // ---- the decoding loop ----

  /** Part of the column is out, and the reference decoder continues from here. */
  ghost predicate Decoding(all: Read<seq<int>>, list: seq<int>, tables: seq<seq<Byte>>, sel: seq<int>, n: nat, k: nat,
                           z: seq<bool>, acc: nat, unit: nat, room: nat, out: seq<int>)
  {
    && Coding(tables, sel, n) && Ranked(list, n) && |out| <= room
    && all == Prepend(out, DecodeData(list, tables, sel, n, k, z, acc, unit, room - |out|))
  }

  lemma DecodingStops(all: Read<seq<int>>, list: seq<int>, tables: seq<seq<Byte>>, sel: seq<int>, n: nat, k: nat,
                      z: seq<bool>, acc: nat, unit: nat, room: nat, out: seq<int>)
    requires Decoding(all, list, tables, sel, n, k, z, acc, unit, room, out)
    ensures NextSymbol(tables, sel, n, k, z) == Short ==> all == Short
    ensures NextSymbol(tables, sel, n, k, z) == Bad ==> all == Bad
  {
  }

  lemma DecodingRun(all: Read<seq<int>>, list: seq<int>, tables: seq<seq<Byte>>, sel: seq<int>, n: nat, k: nat,
                    z: seq<bool>, acc: nat, unit: nat, room: nat, out: seq<int>, s: nat, rest: seq<bool>)
    requires Decoding(all, list, tables, sel, n, k, z, acc, unit, room, out)
    requires NextSymbol(tables, sel, n, k, z) == Got(s, rest) && (s == RUNA || s == RUNB)
    ensures unit >= RUN_LIMIT ==> all == Bad
    ensures unit < RUN_LIMIT ==> Decoding(all, list, tables, sel, n, k + 1, rest, acc + (s + 1) * unit, 2 * unit, room, out)
  {
  }

  /** A pending run comes before any other symbol. */
  lemma DecodingFlush(all: Read<seq<int>>, list: seq<int>, tables: seq<seq<Byte>>, sel: seq<int>, n: nat, k: nat,
                      z: seq<bool>, acc: nat, unit: nat, room: nat, out: seq<int>, s: nat, rest: seq<bool>)
    requires Decoding(all, list, tables, sel, n, k, z, acc, unit, room, out)
    requires NextSymbol(tables, sel, n, k, z) == Got(s, rest) && s != RUNA && s != RUNB
    ensures |out| + acc > room ==> all == Bad
    ensures |out| + acc <= room ==> Decoding(all, list, tables, sel, n, k, z, 0, 1, room, out + Repeat(list[0], acc))
  {
    hide Coding, NextSymbol;
    if |out| + acc <= room {
      var run, left := Repeat(list[0], acc), room - |out| - acc;
      assert Repeat(list[0], 0) == [];
      if s == n + 1 {
        assert out + run == out + run + Repeat(list[0], 0);
      } else if left > 0 {
        RankedMoved(list, n, s - 1);
        var more := DecodeData(MovedToFront(list, s - 1), tables, sel, n, k + 1, rest, 0, 1, left - 1);
        if more.Got? {
          assert out + (run + [list[s - 1]] + more.value) == out + run + (Repeat(list[0], 0) + [list[s - 1]] + more.value);
        }
      }
    }
  }

  lemma DecodingMove(all: Read<seq<int>>, list: seq<int>, tables: seq<seq<Byte>>, sel: seq<int>, n: nat, k: nat,
                     z: seq<bool>, room: nat, out: seq<int>, s: nat, rest: seq<bool>)
    requires Decoding(all, list, tables, sel, n, k, z, 0, 1, room, out)
    requires NextSymbol(tables, sel, n, k, z) == Got(s, rest) && s != RUNA && s != RUNB
    ensures s == n + 1 ==> all == Got(out, rest)
    ensures s != n + 1 ==> 2 <= s <= n <= |list|
    ensures s != n + 1 && |out| == room ==> all == Bad
    ensures s != n + 1 && |out| < room ==>
              Decoding(all, MovedToFront(list, s - 1), tables, sel, n, k + 1, rest, 0, 1, room, out + [list[s - 1]])
  {
    hide Coding, NextSymbol;
    assert Repeat(list[0], 0) == [];
    if s == n + 1 {
      assert out + Repeat(list[0], 0) == out;
    } else if |out| < room {
      RankedMoved(list, n, s - 1);
      var more := DecodeData(MovedToFront(list, s - 1), tables, sel, n, k + 1, rest, 0, 1, room - |out| - 1);
      if more.Got? {
        assert out + ([] + [list[s - 1]] + more.value) == out + [list[s - 1]] + more.value;
      }
    }
  }

  /** The do-while loop over the digits of one run. */
  method ReadRun(r: BitReader, decs: seq<DecodeTable>, selector: seq<int>, sym0: nat, groupNo0: int, groupPos0: int,
                 ghost all: Read<seq<int>>, ghost list: seq<int>, ghost tables: seq<seq<Byte>>, ghost n: nat,
                 ghost k0: nat, ghost z0: seq<bool>, ghost room: nat, ghost out: seq<int>)
    returns (st: Status, nextSym: nat, groupNo: int, groupPos: int, es: int, ghost k: nat, ghost z: seq<bool>, ghost unit: nat)
    requires r.Valid() && Ready(decs, tables) && Synced(groupNo0, groupPos0, |selector|, k0 + 1)
    requires Decoding(all, list, tables, selector, n, k0, z0, 0, 1, room, out)
    requires NextSymbol(tables, selector, n, k0, z0) == Got(sym0, r.Rest()) && (sym0 == RUNA || sym0 == RUNB)
    modifies r
    ensures r.Valid() && (!st.Done? ==> all == Outcome(st, [], r.Rest()))
    ensures st.Done? ==> es >= 0 && Decoding(all, list, tables, selector, n, k, z, es, unit, room, out) && |z| < |z0|
    ensures st.Done? ==> NextSymbol(tables, selector, n, k, z) == Got(nextSym, r.Rest()) && nextSym != RUNA && nextSym != RUNB
    ensures st.Done? ==> nextSym < n + 2 && Synced(groupNo, groupPos, |selector|, k + 1)
  {
    hide BitReader.Valid, BitReader.Rest, Decoding, NextSymbol, Coding, DecodeTable.For, DecodeData;
    nextSym, groupNo, groupPos, es := sym0, groupNo0, groupPos0, -1;
    var N := 1;
    k, z, unit := k0, z0, 1;
    CodingParts(all, list, tables, selector, n, k, z, 0, 1, room, out);
    while true
      invariant Coding(tables, selector, n)
      invariant r.Valid() && es + 1 >= 0 && N >= 1 && Synced(groupNo, groupPos, |selector|, k + 1)
      invariant es + 1 <= 2 * (N - 1) && N <= 2 * RUN_LIMIT
      invariant Decoding(all, list, tables, selector, n, k, z, es + 1, N, room, out)
      invariant NextSymbol(tables, selector, n, k, z) == Got(nextSym, r.Rest()) && (nextSym == RUNA || nextSym == RUNB)
      invariant |z| <= |z0|
      decreases |z|
    {
      CodingParts(all, list, tables, selector, n, k, z, es + 1, N, room, out);
      DecodingRun(all, list, tables, selector, n, k, z, es + 1, N, room, out, nextSym, r.Rest());
      if N >= 2 * 1024 * 1024 { st := DataError; return; }
      if nextSym == RUNA { es := es + 1 * N; } else { es := es + 2 * N; }
      N := N * 2;
      k, z := k + 1, r.Rest();
      DecodingStops(all, list, tables, selector, n, k, z, es + 1, N, room, out);
      st, nextSym, groupNo, groupPos := NextSym(r, decs, selector, groupNo, groupPos, tables, n, k);
      if !st.Done? { return; }
      if !(nextSym == RUNA || nextSym == RUNB) { break; }
    }
    es := es + 1;
    unit := N;
  }

  lemma CodingParts(all: Read<seq<int>>, list: seq<int>, tables: seq<seq<Byte>>, sel: seq<int>, n: nat, k: nat,
                    z: seq<bool>, acc: nat, unit: nat, room: nat, out: seq<int>)
    requires Decoding(all, list, tables, sel, n, k, z, acc, unit, room, out)
    ensures Coding(tables, sel, n) && Ranked(list, n) && |out| <= room
    ensures NextSymbol(tables, sel, n, k, z).Got? ==> |NextSymbol(tables, sel, n, k, z).rest| < |z|
  {
  }

  // ---- the column in memory ----

  ghost predicate Bytes(u: seq<int>) {
    forall i :: 0 <= i < |u| ==> 0 <= u[i] < 256
  }

  /** The decoded column so far, and the counts of its bytes. */
  ghost predicate Stored(tt: seq<int>, unzftab: seq<int>, u: seq<int>, out: seq<int>) {
    && Bytes(u) && (forall i :: 0 <= i < |out| ==> 0 <= out[i] < |u|) && |out| <= |tt| && |unzftab| == 256
    && tt[..|out|] == Named(u, out)
    && forall c :: 0 <= c < 256 ==> unzftab[c] == Count(Named(u, out), c)
  }

  lemma {:induction false} CountRepeat(s: seq<Byte>, x: Byte, m: nat, t: seq<Byte>)
    requires |t| == |s| + m && t[..|s|] == s && forall i :: |s| <= i < |t| ==> t[i] == x
    ensures forall c :: Count(t, c) == Count(s, c) + (if c == x then m else 0)
    decreases m
  {
    if m == 0 {
      assert t == s;
    } else {
      var t' := t[..|t| - 1];
      assert t'[..|s|] == s;
      CountRepeat(s, x, m - 1, t');
    }
  }

  /** m copies of one code stored behind the column. */
  lemma StoredMore(tt: seq<int>, unzftab: seq<int>, u: seq<int>, out: seq<int>, x: int, m: nat, tt': seq<int>, uc: Byte)
    requires Stored(tt, unzftab, u, out) && 0 <= x < |u| && uc == u[x] && |out| + m <= |tt| == |tt'|
    requires forall i :: 0 <= i < |out| ==> tt'[i] == tt[i]
    requires forall i :: |out| <= i < |out| + m ==> tt'[i] == uc
    ensures Stored(tt', unzftab[uc := unzftab[uc] + m], u, out + Repeat(x, m))
  {
    var out' := out + Repeat(x, m);
    var s, t := Named(u, out), Named(u, out');
    assert t[..|out|] == s;
    CountRepeat(s, uc, m, t);
    assert tt[..|out|] == s;
    assert forall i :: 0 <= i < |out| ==> tt[i] == s[i];
    assert tt'[..|out'|] == t;
  }

  method FlushRun(tt: array<int>, nblock0: nat, nblockMAX: nat, uc: Byte, es0: nat) returns (ok: bool, nblock: nat)
    requires nblock0 <= nblockMAX <= tt.Length
    modifies tt
    ensures ok == (nblock0 + es0 <= nblockMAX)
    ensures ok ==> nblock == nblock0 + es0 && (forall i :: nblock0 <= i < nblock ==> tt[i] == uc)
    ensures forall i :: 0 <= i < nblock0 ==> tt[i] == old(tt[i])
  {
    var es := es0;
    nblock := nblock0;
    while es > 0
      invariant 0 <= es <= es0 && nblock == nblock0 + es0 - es <= nblockMAX
      invariant forall i :: nblock0 <= i < nblock ==> tt[i] == uc
      invariant forall i :: 0 <= i < nblock0 ==> tt[i] == old(tt[i])
    {
      if nblock >= nblockMAX { return false, nblock; }
      tt[nblock] := uc;
      nblock := nblock + 1;
      es := es - 1;
    }
    ok := true;
  }

  /** Where the decoding loop stands each time round, the next symbol already read. */
  ghost predicate AtSymbol(all: Read<seq<int>>, list: seq<int>, tables: seq<seq<Byte>>, sel: seq<int>, n: nat, k: nat,
                           z: seq<bool>, room: nat, out: seq<int>, s: nat, rest: seq<bool>)
  {
    Decoding(all, list, tables, sel, n, k, z, 0, 1, room, out) && NextSymbol(tables, sel, n, k, z) == Got(s, rest) && s < n + 2
  }

  /** Memory and table agree with the reference decoder. */
  ghost predicate Tracks(tt: seq<int>, unzftab: seq<int>, u: seq<int>, out: seq<int>, nblock: nat, list: seq<int>, n: nat, mtf: seq<Byte>) {
    Stored(tt, unzftab, u, out) && nblock == |out| && mtf == list && |list| == 256 && |u| == n && Ranked(list, n)
  }

  /** One run: read its digits, then store that many copies of the front byte. */
  method DecodeRun(r: BitReader, decs: seq<DecodeTable>, selector: seq<int>, u: seq<int>, tt: array<int>, unzftab: array<int>,
                   mtf: MtfTable, nblock0: nat, nblockMAX: nat, sym0: nat, groupNo0: int, groupPos0: int,
                   ghost all: Read<seq<int>>, ghost list: seq<int>, ghost tables: seq<seq<Byte>>, ghost n: nat,
                   ghost k0: nat, ghost z0: seq<bool>, ghost out0: seq<int>)
    returns (st: Status, nextSym: nat, groupNo: int, groupPos: int, nblock: nat, ghost k: nat, ghost z: seq<bool>, ghost out: seq<int>)
    requires r.Valid() && Ready(decs, tables) && Synced(groupNo0, groupPos0, |selector|, k0 + 1) && mtf.Valid()
    requires tt != unzftab && nblockMAX <= tt.Length && unzftab.Length == 256 && tt != mtf.mtfbase && unzftab != mtf.mtfbase
    requires forall d :: d in decs ==> tt !in {d.limit, d.base, d.perm} && unzftab !in {d.limit, d.base, d.perm}
    requires AtSymbol(all, list, tables, selector, n, k0, z0, nblockMAX, out0, sym0, r.Rest()) && (sym0 == RUNA || sym0 == RUNB)
    requires Tracks(tt[..], unzftab[..], u, out0, nblock0, list, n, mtf.List())
    modifies r, tt, unzftab
    ensures r.Valid() && (!st.Done? ==> all == Outcome(st, [], r.Rest()))
    ensures st.Done? ==> AtSymbol(all, list, tables, selector, n, k, z, nblockMAX, out, nextSym, r.Rest()) && |z| < |z0|
    ensures st.Done? ==> Synced(groupNo, groupPos, |selector|, k + 1) && mtf.Valid()
    ensures st.Done? ==> Tracks(tt[..], unzftab[..], u, out, nblock, list, n, mtf.List())
  {
    hide BitReader.Valid, BitReader.Rest, Decoding, NextSymbol, Coding, Ready, DecodeData, Stored, Synced, MtfTable.Valid, Ranked;
    hide MtfTable.List, MtfTable.Spaced, Holds;
    var es;
    ghost var unit;
    nblock, out := nblock0, out0;
    st, nextSym, groupNo, groupPos, es, k, z, unit :=
      ReadRun(r, decs, selector, sym0, groupNo0, groupPos0, all, list, tables, n, k0, z0, nblockMAX, out0);
    if !st.Done? { return; }
    ghost var x := list[0];
    FrontKnown(list, u, n);
    DecodingFlush(all, list, tables, selector, n, k, z, es, unit, nblockMAX, out0, nextSym, r.Rest());
    CodingParts(all, list, tables, selector, n, k, z, es, unit, nblockMAX, out0);
    ghost var tt0, unz0 := tt[..], unzftab[..];
    StoredParts(tt0, unz0, u, out0);
    var front := mtf.Front();
    var uc: Byte := u[front];
    unzftab[uc] := unzftab[uc] + es;
    assert unzftab[..] == unz0[uc := unz0[uc] + es];
    var ok;
    ok, nblock := FlushRun(tt, nblock0, nblockMAX, uc, es);
    if !ok { st := DataError; return; }
    out := out0 + Repeat(x, es);
    StoredMore(tt0, unz0, u, out0, x, es, tt[..], uc);
  }

  lemma FrontKnown(list: seq<int>, u: seq<int>, n: nat)
    requires Ranked(list, n) && |u| == n
    ensures 0 <= list[0] < |u|
  {
  }

  lemma StoredParts(tt: seq<int>, unzftab: seq<int>, u: seq<int>, out: seq<int>)
    requires Stored(tt, unzftab, u, out)
    ensures Bytes(u) && |out| <= |tt| && |unzftab| == 256
  {
  }

  /** One more byte of the column. */
  method StoreByte(tt: array<int>, unzftab: array<int>, u: seq<int>, nblock0: nat, c: Byte, ghost x: int, ghost out: seq<int>)
    returns (nblock: nat)
    requires tt != unzftab && nblock0 == |out| < tt.Length && Stored(tt[..], unzftab[..], u, out) && 0 <= x < |u| && c == u[x]
    modifies tt, unzftab
    ensures Stored(tt[..], unzftab[..], u, out + [x]) && nblock == |out| + 1
  {
    hide Stored, Repeat;
    ghost var tt0, unz0 := tt[..], unzftab[..];
    StoredParts(tt0, unz0, u, out);
    unzftab[c] := unzftab[c] + 1;
    tt[nblock0] := c;
    nblock := nblock0 + 1;
    assert unzftab[..] == unz0[c := unz0[c] + 1] && tt[..] == tt0[nblock0 := c as int];
    StoredMore(tt0, unz0, u, out, x, 1, tt[..], c);
    OneMore(out, x);
  }

  /** One entry that is not a run: move it to the front and store its byte. */
  method DecodeOther(tt: array<int>, unzftab: array<int>, u: seq<int>, mtf: MtfTable, nblock0: nat, nextSym: nat,
                     ghost list: seq<int>, ghost n: nat, ghost out: seq<int>)
    returns (nblock: nat)
    requires tt != unzftab && nblock0 < tt.Length && unzftab.Length == 256 && mtf.Valid() && tt != mtf.mtfbase && unzftab != mtf.mtfbase
    requires Tracks(tt[..], unzftab[..], u, out, nblock0, list, n, mtf.List()) && 2 <= nextSym <= n
    modifies tt, unzftab, mtf.mtfa, mtf.mtfbase
    ensures mtf.Valid() && Tracks(tt[..], unzftab[..], u, out + [list[nextSym - 1]], nblock, MovedToFront(list, nextSym - 1), n, mtf.List())
  {
    hide Stored, MtfTable.List, MtfTable.Spaced, MovedToFront, Ranked, Holds;
    EntryKnown(list, u, n, nextSym - 1);
    StoredParts(tt[..], unzftab[..], u, out);
    RankedMoved(list, n, nextSym - 1);
    var uc := mtf.Decode(nextSym - 1);
    nblock := StoreByte(tt, unzftab, u, nblock0, u[uc], list[nextSym - 1], out);
  }

  lemma OneMore(out: seq<int>, x: int)
    ensures out + Repeat(x, 1) == out + [x]
  {
  }

  lemma EntryKnown(list: seq<int>, u: seq<int>, n: nat, k: nat)
    requires Ranked(list, n) && |u| == n && k < n
    ensures n <= |list| && 0 <= list[k] < |u|
  {
  }

  /** From the first symbol to the end-of-block symbol: memory ends up holding the column of the reference decoder. */
  method DecodeColumn(r: BitReader, decs: seq<DecodeTable>, selector: seq<int>, u: seq<int>, tt: array<int>, unzftab: array<int>,
                      nblockMAX: nat, ghost tables: seq<seq<Byte>>)
    returns (st: Status, nblock: nat, ghost col: seq<int>)
    requires r.Valid() && Ready(decs, tables) && Coding(tables, selector, |u|) && Bytes(u)
    requires tt != unzftab && nblockMAX <= tt.Length && unzftab.Length == 256
    requires forall d :: d in decs ==> tt !in {d.limit, d.base, d.perm} && unzftab !in {d.limit, d.base, d.perm}
    modifies r, tt, unzftab
    ensures r.Valid() && Ranked(Iota(256), |u|)
    ensures DecodeData(Iota(256), tables, selector, |u|, 0, old(r.Rest()), 0, 1, nblockMAX) == Outcome(st, col, r.Rest())
    ensures st.Done? ==> Stored(tt[..], unzftab[..], u, col) && nblock == |col|
  {
    hide BitReader.Valid, BitReader.Rest, Decoding, NextSymbol, Coding, Ready, DecodeData, Stored, Synced, Ranked;
    hide MtfTable.List, MtfTable.Spaced, AtSymbol, Tracks, Holds, Bytes;
    ghost var n := |u|;
    ghost var list, k, z := Iota(256), 0, r.Rest();
    CodingSize(tables, selector, n);
    IotaRanked(n);
    ghost var all := DecodeData(list, tables, selector, n, 0, z, 0, 1, nblockMAX);
    for i := 0 to 256
      modifies unzftab
      invariant forall c :: 0 <= c < i ==> unzftab[c] == 0
    {
      unzftab[i] := 0;
    }
    var mtf := new MtfTable();
    nblock, col := 0, [];
    DecodingStarts(all, list, tables, selector, n, z, nblockMAX, tt[..], unzftab[..], u);
    var nextSym, groupNo, groupPos;
    st, nextSym, groupNo, groupPos := NextSym(r, decs, selector, -1, 0, tables, n, 0);
    DecodingStops(all, list, tables, selector, n, 0, z, 0, 1, nblockMAX, []);
    if !st.Done? { return; }
    PackAtSymbol(all, list, tables, selector, n, k, z, nblockMAX, [], nextSym, r.Rest());
    assert Tracks(tt[..], unzftab[..], u, [], 0, list, n, mtf.List()) by { PackTracks(tt[..], unzftab[..], u, [], 0, list, n, mtf.List()); }
    while true
      invariant r.Valid() && mtf.Valid() && fresh(mtf) && fresh(mtf.mtfa) && fresh(mtf.mtfbase) && Ready(decs, tables)
      invariant AtSymbol(all, list, tables, selector, n, k, z, nblockMAX, col, nextSym, r.Rest())
      invariant Synced(groupNo, groupPos, |selector|, k + 1)
      invariant Tracks(tt[..], unzftab[..], u, col, nblock, list, n, mtf.List())
      decreases |z|
    {
      AtSymbolParts(all, list, tables, selector, n, k, z, nblockMAX, col, nextSym, r.Rest());
      TracksParts(tt[..], unzftab[..], u, col, nblock, list, n, mtf.List());
      if nextSym == RUNA || nextSym == RUNB {
        st, nextSym, groupNo, groupPos, nblock, k, z, col :=
          DecodeRun(r, decs, selector, u, tt, unzftab, mtf, nblock, nblockMAX, nextSym, groupNo, groupPos, all, list, tables, n, k, z, col);
        if !st.Done? { return; }
      } else {
        DecodingMove(all, list, tables, selector, n, k, z, nblockMAX, col, nextSym, r.Rest());
        if nextSym == |u| + 1 { break; }
        if nblock >= nblockMAX { st := DataError; return; }
        nblock := DecodeOther(tt, unzftab, u, mtf, nblock, nextSym, list, n, col);
        col := col + [list[nextSym - 1]];
        list := MovedToFront(list, nextSym - 1);
        k, z := k + 1, r.Rest();
        DecodingStops(all, list, tables, selector, n, k, z, 0, 1, nblockMAX, col);
        st, nextSym, groupNo, groupPos := NextSym(r, decs, selector, groupNo, groupPos, tables, n, k);
        if !st.Done? { return; }
        PackAtSymbol(all, list, tables, selector, n, k, z, nblockMAX, col, nextSym, r.Rest());
      }
    }
    st := Done;
  }

  lemma CodingSize(tables: seq<seq<Byte>>, sel: seq<int>, n: nat)
    requires Coding(tables, sel, n)
    ensures 0 < n <= 256
  {
  }

  lemma DecodingStarts(all: Read<seq<int>>, list: seq<int>, tables: seq<seq<Byte>>, sel: seq<int>, n: nat, z: seq<bool>, room: nat,
                       tt: seq<int>, unzftab: seq<int>, u: seq<int>)
    requires Coding(tables, sel, n) && Ranked(list, n) && all == DecodeData(list, tables, sel, n, 0, z, 0, 1, room)
    requires Bytes(u) && |unzftab| == 256 && forall c :: 0 <= c < 256 ==> unzftab[c] == 0
    ensures Decoding(all, list, tables, sel, n, 0, z, 0, 1, room, []) && Synced(-1, 0, |sel|, 0)
    ensures Stored(tt, unzftab, u, [])
  {
    if all.Got? { assert [] + all.value == all.value; }
    assert Named(u, []) == [];
  }

  lemma PackAtSymbol(all: Read<seq<int>>, list: seq<int>, tables: seq<seq<Byte>>, sel: seq<int>, n: nat, k: nat,
                     z: seq<bool>, room: nat, out: seq<int>, s: nat, rest: seq<bool>)
    requires Coding(tables, sel, n)
    requires Decoding(all, list, tables, sel, n, k, z, 0, 1, room, out) && NextSymbol(tables, sel, n, k, z) == Got(s, rest)
    ensures AtSymbol(all, list, tables, sel, n, k, z, room, out, s, rest)
  {
  }

  lemma AtSymbolParts(all: Read<seq<int>>, list: seq<int>, tables: seq<seq<Byte>>, sel: seq<int>, n: nat, k: nat,
                      z: seq<bool>, room: nat, out: seq<int>, s: nat, rest: seq<bool>)
    requires AtSymbol(all, list, tables, sel, n, k, z, room, out, s, rest)
    ensures Coding(tables, sel, n) && |out| <= room && |rest| < |z|
    ensures Decoding(all, list, tables, sel, n, k, z, 0, 1, room, out) && NextSymbol(tables, sel, n, k, z) == Got(s, rest)
  {
  }

  lemma PackTracks(tt: seq<int>, unzftab: seq<int>, u: seq<int>, out: seq<int>, nblock: nat, list: seq<int>, n: nat, mtf: seq<Byte>)
    requires Stored(tt, unzftab, u, out) && nblock == |out| && mtf == list && |list| == 256 && |u| == n && Ranked(list, n)
    ensures Tracks(tt, unzftab, u, out, nblock, list, n, mtf)
  {
  }

  lemma TracksParts(tt: seq<int>, unzftab: seq<int>, u: seq<int>, out: seq<int>, nblock: nat, list: seq<int>, n: nat, mtf: seq<Byte>)
    requires Tracks(tt, unzftab, u, out, nblock, list, n, mtf)
    ensures Stored(tt, unzftab, u, out) && nblock == |out| && |list| == 256
  {
  }
}
